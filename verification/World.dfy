/** Everything the session and registration handlers share: the tables of the store, the counters and the
    address cursor of the process, and the sessions that live at the user plane. */
module World {
  import opened Text
  import opened Models
  import opened IpPool
  import Bsf
  import Chf
  import Nsacf

  type Subnet = n: nat | n < 256
  type Host = n: nat | 1 <= n <= 254 witness 1

  datatype World = World(
    sessions: map<string, PduSession>,
    leases: map<string, string>,
    bsf: Bsf.State,
    chf: Chf.State,
    slices: Nsacf.Table,
    contexts: map<string, UeContext>,
    subnet: Subnet,
    host: Host,
    seid: nat,
    upf: set<nat>)

  const INITIAL := World(map[], map[], Bsf.EMPTY, Chf.EMPTY, map[], map[], 0, 1, 0, {})

  /** The environment of the deployment: which clients exist, which Release 17 functions are enabled,
      and the first two octets of the address pool. */
  datatype Config = Config(sbi: bool, pfcp: bool, bsf: bool, charging: bool, nsacf: bool, prefix: string)

  /** The cursor as a position in the pool. */
  function Cursor(w: World): (position: nat)
    ensures position < POOL
  {
    w.subnet * HOSTS + w.host - 1
  }

  function WithCursor(w: World, position: nat): (w': World)
    requires position < POOL
    ensures Cursor(w') == position
  {
    w.(subnet := position / HOSTS, host := position % HOSTS + 1)
  }
}
