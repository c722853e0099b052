/** The virtual internet (terminal_game/internet.py): the operating systems in the order
    they were added, and the lookup of a system by its address. */
module Internet {
  import opened Common
  import opened Parser
  import opened System

  datatype Net = Net(hosts: seq<Host>)

  /** The empty internet of `Internet()`. */
  const Empty: Net := Net([])

  /** `add_os`: build a system (see `System.NewHost`) and append it; a failure to build one
      leaves the internet as it was. */
  function AddOs(net: Net, ip: Ip, username: string, password: string, desc: seq<Entry>): (r: Result<(Net, Host)>)
    ensures r.Ok? <==> NewHost(ip, username, password, desc).Ok?
    ensures r.Err? ==> r.error == NewHost(ip, username, password, desc).error
    ensures r.Ok? ==> r.value.0.hosts == net.hosts + [r.value.1]
    ensures r.Ok? ==> r.value.1.ip == ip && r.value.1.username == username && r.value.1.password == password
  {
    match NewHost(ip, username, password, desc)
    case Err(e) => Err(e)
    case Ok(h) => Ok((Net(net.hosts + [h]), h))
  }

  /** Reference definition of the lookup: the position of the first system with the address. */
  function FirstWithIp(hosts: seq<Host>, ip: Ip): (r: Option<nat>)
    ensures r.None? <==> forall i :: 0 <= i < |hosts| ==> hosts[i].ip != ip
    ensures r.Some? ==> r.value < |hosts| && hosts[r.value].ip == ip
                        && forall j :: 0 <= j < r.value ==> hosts[j].ip != ip
    decreases |hosts|
  {
    if |hosts| == 0 then None
    else if hosts[0].ip == ip then Some(0)
    else match FirstWithIp(hosts[1..], ip)
      case None => None
      case Some(k) => Some(k + 1)
  }

  /** `get_os_by_ip`: the first system with the address, or OsNotFound. */
  function GetOsByIp(net: Net, ip: Ip): (r: Result<Host>)
    ensures r.Ok? <==> exists i :: 0 <= i < |net.hosts| && net.hosts[i].ip == ip
    ensures r.Err? ==> r.error == OsNotFound
    ensures r.Ok? ==> r.value.ip == ip
    ensures r.Ok? ==> exists k :: 0 <= k < |net.hosts| && net.hosts[k] == r.value
                                  && forall j :: 0 <= j < k ==> net.hosts[j].ip != ip
  {
    match FirstWithIp(net.hosts, ip)
    case None => Err(OsNotFound)
    case Some(k) => Ok(net.hosts[k])
  }

  /** The scan `get_os_by_ip` performs, one system at a time; it agrees with the lookup. */
  method FindOs(net: Net, ip: Ip) returns (r: Result<Host>)
    ensures r == GetOsByIp(net, ip)
  {
    var i := 0;
    while i < |net.hosts|
      invariant 0 <= i <= |net.hosts|
      invariant forall j :: 0 <= j < i ==> net.hosts[j].ip != ip
    {
      if net.hosts[i].ip == ip {
        FirstIsUnique(net.hosts, ip, i);
        return Ok(net.hosts[i]);
      }
      i := i + 1;
    }
    return Err(OsNotFound);
  }

  /** A position holding the address with no earlier one is the first position. */
  lemma {:induction false} FirstIsUnique(hosts: seq<Host>, ip: Ip, i: nat)
    requires i < |hosts| && hosts[i].ip == ip
    requires forall j :: 0 <= j < i ==> hosts[j].ip != ip
    ensures FirstWithIp(hosts, ip) == Some(i)
    decreases i
  {
    if i > 0 {
      FirstIsUnique(hosts[1..], ip, i - 1);
    }
  }

  /** A system added under an address no other system has is what the lookup finds. */
  lemma AddThenLookup(net: Net, ip: Ip, username: string, password: string, desc: seq<Entry>)
    requires forall i :: 0 <= i < |net.hosts| ==> net.hosts[i].ip != ip
    requires AddOs(net, ip, username, password, desc).Ok?
    ensures GetOsByIp(AddOs(net, ip, username, password, desc).value.0, ip)
            == Ok(AddOs(net, ip, username, password, desc).value.1)
  {
    var (net', h) := AddOs(net, ip, username, password, desc).value;
    FirstIsUnique(net'.hosts, ip, |net.hosts|);
  }

  /** Adding a system changes no lookup that already succeeded: with a repeated address the
      earlier system keeps answering. For other addresses nothing changes either. */
  lemma AddKeepsLookups(net: Net, ip: Ip, username: string, password: string, desc: seq<Entry>, other: Ip)
    requires AddOs(net, ip, username, password, desc).Ok?
    requires other != ip || GetOsByIp(net, other).Ok?
    ensures GetOsByIp(AddOs(net, ip, username, password, desc).value.0, other) == GetOsByIp(net, other)
  {
    var h := AddOs(net, ip, username, password, desc).value.1;
    SnocKeepsFirst(net.hosts, h, other);
  }

  /** Appending a system moves no first position, and finds nothing new unless the address
      is the appended system's. */
  lemma {:induction false} SnocKeepsFirst(hosts: seq<Host>, h: Host, other: Ip)
    requires other != h.ip || FirstWithIp(hosts, other).Some?
    ensures FirstWithIp(hosts + [h], other) == FirstWithIp(hosts, other)
    decreases |hosts|
  {
    if |hosts| > 0 && hosts[0].ip != other {
      assert (hosts + [h])[1..] == hosts[1..] + [h];
      SnocKeepsFirst(hosts[1..], h, other);
    }
  }
}
