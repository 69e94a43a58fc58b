/**
 * The scanner: fetch the baseline page through the domain's proxy, walk
 * every address of the block, probe each one with the domain as Host header
 * and report the addresses whose page has a length close to the baseline's.
 *
 * The HTTP exchanges are not modelled: an exchange is represented by its
 * outcome, and the probe of every candidate address is a function of the
 * address.
 */
module Scan {
  import opened Bits
  import opened IP
  import opened CIDR

  datatype Option<T> = None | Some(value: T)

  /**
   * What one HTTP exchange yields: a failure (the request could not be
   * built, sent or read) or a response with its status code and the length
   * of its body.
   */
  datatype Outcome = Failed | Response(status: int, bodyLength: nat)

  /** http.StatusOK. */
  const StatusOK := 200

  /** sendHTTPRequest: the body of a 200 response; any other outcome is an error. */
  function Body(o: Outcome): (r: Option<nat>)
    ensures r.Some? <==> o.Response? && o.status == StatusOK
    ensures r.Some? ==> r.value == o.bodyLength
  {
    if o.Response? && o.status == StatusOK then Some(o.bodyLength) else None
  }

  // ---------------------------------------------------------------------
  // The length comparison

  function Abs(x: int): nat
  {
    if x < 0 then -x else x
  }

  /** isWithinRange: the two lengths differ by at most delta. */
  predicate WithinRange(direct: int, proxy: int, delta: int)
  {
    Abs(direct - proxy) <= delta
  }

  /** The accepted lengths form the interval [proxy - delta, proxy + delta]. */
  lemma WithinRangeInterval(direct: int, proxy: int, delta: int)
    ensures WithinRange(direct, proxy, delta) <==> proxy - delta <= direct <= proxy + delta
  {
  }

  /** The comparison does not depend on which length is the proxy's. */
  lemma WithinRangeSymmetric(direct: int, proxy: int, delta: int)
    ensures WithinRange(direct, proxy, delta) <==> WithinRange(proxy, direct, delta)
  {
  }

  /** A larger tolerance accepts everything a smaller one does. */
  lemma WithinRangeMonotone(direct: int, proxy: int, delta: int, delta': int)
    requires delta <= delta'
    ensures WithinRange(direct, proxy, delta) ==> WithinRange(direct, proxy, delta')
  {
  }

  /** A negative tolerance accepts nothing, and tolerance 0 only the exact length. */
  lemma WithinRangeEdges(direct: int, proxy: int, delta: int)
    ensures delta < 0 ==> !WithinRange(direct, proxy, delta)
    ensures WithinRange(direct, proxy, 0) <==> direct == proxy
  {
  }

  /** With a baseline of 1000 bytes and tolerance 50, exactly 950..1050 match. */
  lemma WithinRangeExamples()
    ensures WithinRange(950, 1000, 50) && WithinRange(1050, 1000, 50)
    ensures !WithinRange(949, 1000, 50) && !WithinRange(1051, 1000, 50)
    ensures WithinRange(1000, 1000, 0) && !WithinRange(999, 1000, 0) && !WithinRange(1001, 1000, 0)
  {
  }

  // ---------------------------------------------------------------------
  // One candidate

  /** The line the worker prints: the probed address and the length of its page. */
  datatype Report = Report(host: Addr, length: nat)

  /**
   * worker: probe one address; report it when the exchange succeeded with
   * status 200 and the body length is within delta of the baseline length.
   */
  function Worker(host: Addr, o: Outcome, proxyLength: nat, delta: int): (r: Option<Report>)
    ensures r.Some? <==> o.Response? && o.status == StatusOK && WithinRange(o.bodyLength, proxyLength, delta)
    ensures r.Some? ==> r.value == Report(host, o.bodyLength)
  {
    match Body(o)
    case None => None
    case Some(length) =>
      if WithinRange(length, proxyLength, delta) then Some(Report(host, length)) else None
  }

  function Emitted(r: Option<Report>): seq<Report>
  {
    match r
    case None => []
    case Some(rep) => [rep]
  }

  /** The reports of the candidates in hosts, in the order the candidates were launched. */
  function Reports(hosts: seq<Addr>, probe: Addr -> Outcome, proxyLength: nat, delta: int): seq<Report>
  {
    if hosts == [] then []
    else
      var n := |hosts| - 1;
      Reports(hosts[..n], probe, proxyLength, delta) + Emitted(Worker(hosts[n], probe(hosts[n]), proxyLength, delta))
  }

  lemma ReportsSnoc(hosts: seq<Addr>, host: Addr, probe: Addr -> Outcome, proxyLength: nat, delta: int)
    ensures Reports(hosts + [host], probe, proxyLength, delta)
         == Reports(hosts, probe, proxyLength, delta) + Emitted(Worker(host, probe(host), proxyLength, delta))
  {
    assert (hosts + [host])[..|hosts|] == hosts;
  }

  /**
   * A report appears exactly for a probed address whose own worker decided
   * to report it: no error, status 200, length within range.
   */
  lemma {:induction false} ReportsExactly(hosts: seq<Addr>, probe: Addr -> Outcome, proxyLength: nat, delta: int, rep: Report)
    ensures rep in Reports(hosts, probe, proxyLength, delta)
        <==> rep.host in hosts && Worker(rep.host, probe(rep.host), proxyLength, delta) == Some(rep)
  {
    if hosts != [] {
      var n := |hosts| - 1;
      ReportsExactly(hosts[..n], probe, proxyLength, delta, rep);
      assert hosts == hosts[..n] + [hosts[n]];
    }
  }

  /** No more reports than candidates. */
  lemma {:induction false} ReportsBound(hosts: seq<Addr>, probe: Addr -> Outcome, proxyLength: nat, delta: int)
    ensures |Reports(hosts, probe, proxyLength, delta)| <= |hosts|
  {
    if hosts != [] {
      ReportsBound(hosts[..|hosts| - 1], probe, proxyLength, delta);
    }
  }

  /**
   * A transport error on one candidate removes that candidate's report and
   * changes no other.
   */
  lemma TransportErrorIsolated(hosts: seq<Addr>, probe: Addr -> Outcome, probe': Addr -> Outcome,
                               failed: Addr, proxyLength: nat, delta: int, rep: Report)
    requires probe'(failed) == Failed
    requires forall a :: a != failed ==> probe'(a) == probe(a)
    ensures rep in Reports(hosts, probe', proxyLength, delta)
        <==> rep in Reports(hosts, probe, proxyLength, delta) && rep.host != failed
  {
    ReportsExactly(hosts, probe, proxyLength, delta, rep);
    ReportsExactly(hosts, probe', proxyLength, delta, rep);
  }

  // ---------------------------------------------------------------------
  // The scan

  /** How a run ends: the baseline fetch failed (and the process exits), or every address was probed. */
  datatype ScanResult = BaselineUnavailable | Completed(probed: seq<Addr>, reports: seq<Report>)

  /** ((x mod m) + 1) mod m == (x + 1) mod m. */
  lemma ModStep(x: nat, y: nat, m: nat)
    requires m > 0 && y == x + 1
    ensures (x % m + 1) % m == y % m
  {
    var q, r := x / m, x % m;
    if r + 1 < m {
      DivUnique(y, m, q, r + 1);
      ModSmall(r + 1, m);
    } else {
      DivUnique(y, m, q + 1, 0);
      ModSelf(m);
    }
  }

  /**
   * The state of the enumeration after the addresses in probed were
   * launched: they are the first ones of the block, and the current address
   * cur is the network address advanced |probed| times, modulo 2^32.
   */
  predicate Visited(b: Block, cur: seq<Byte>, probed: seq<Addr>)
  {
    b.prefix >= 1 && |probed| <= Size(b) && probed == Addresses(b)[..|probed|]
    && Value(cur) == (Value(Network(b)) + |probed|) % 0x1_0000_0000
  }

  lemma VisitedStart(b: Block, cur: seq<Byte>)
    requires b.prefix >= 1 && cur == Network(b)
    ensures Visited(b, cur, [])
  {
    NetworkFits(b);
    Pow2ThirtyTwo();
    ModSmall(Value(Network(b)), 0x1_0000_0000);
  }

  /**
   * One turn of the loop: a current address that the block contains is the
   * next address of the block, and incrementing it keeps the state.
   */
  lemma VisitedStep(b: Block, host: Addr, next: seq<Byte>, probed: seq<Addr>)
    requires Visited(b, host, probed) && Contains(b, host)
    requires next == Successor(host)
    ensures |probed| < Size(b)
    ensures Visited(b, next, probed + [host])
  {
    var k, probed' := |probed|, probed + [host];
    ContainsAtStep(b, host, k);
    AdvanceValue(host, next, Value(Network(b)) + k, Value(Network(b)) + |probed'|);
    PrefixSnoc(Addresses(b), k, |probed'|);
  }

  /** Incrementing an address adds one to its value, modulo 2^32. */
  lemma AdvanceValue(host: Addr, next: seq<Byte>, x: nat, y: nat)
    requires next == Successor(host)
    requires Value(host) == x % 0x1_0000_0000 && y == x + 1
    ensures Value(next) == y % 0x1_0000_0000
  {
    SuccessorValue(host);
    assert 8 * |host| == 32;
    Pow2ThirtyTwo();
    ModStep(x, y, 0x1_0000_0000);
  }

  /** The loop stops exactly when every address of the block was launched. */
  lemma VisitedEnd(b: Block, cur: Addr, probed: seq<Addr>)
    requires Visited(b, cur, probed) && !Contains(b, cur)
    ensures probed == Addresses(b)
  {
    ContainsAtStep(b, cur, |probed|);
    AddressesAscending(b);
  }

  lemma PrefixSnoc(s: seq<Addr>, k: nat, k': nat)
    requires k < |s| && k' == k + 1
    ensures s[..k'] == s[..k] + [s[k]]
  {
  }

  /**
   * The enumeration loop of the command: copy the start address into a
   * buffer and, while the block contains the address in the buffer, launch
   * its probe and increment the buffer in place.
   */
  method Sweep(ipnet: Block, start: Addr, probe: Addr -> Outcome, proxyLength: nat, delta: int)
    returns (probed: seq<Addr>, reports: seq<Report>)
    requires ipnet.prefix >= 1 && start == Network(ipnet)
    ensures probed == Addresses(ipnet)
    ensures reports == Reports(probed, probe, proxyLength, delta)
  {
    var a := new Byte[4][start[0], start[1], start[2], start[3]];
    assert a[..] == start;
    VisitedStart(ipnet, a[..]);
    probed, reports := [], [];
    while Contains(ipnet, a[..])
      invariant a.Length == 4
      invariant Visited(ipnet, a[..], probed)
      invariant reports == Reports(probed, probe, proxyLength, delta)
      decreases Size(ipnet) - |probed|
    {
      var host: Addr := a[..];
      Inc(a);
      VisitedStep(ipnet, host, a[..], probed);
      ReportsSnoc(probed, host, probe, proxyLength, delta);
      probed := probed + [host];
      reports := reports + Emitted(Worker(host, probe(host), proxyLength, delta));
    }
    VisitedEnd(ipnet, a[..], probed);
  }

  /**
   * The command's run for ip/prefix: fetch the baseline through the proxy
   * and stop when that fails; otherwise sweep the block from the masked
   * address.
   */
  method Scan(ip: Addr, prefix: Prefix, baseline: Outcome, probe: Addr -> Outcome, delta: int)
    returns (r: ScanResult)
    requires prefix >= 1
    ensures r.BaselineUnavailable? <==> Body(baseline).None?
    ensures r.Completed? ==> r.probed == Addresses(BlockOf(ip, prefix))
    ensures r.Completed? ==> r.reports == Reports(r.probed, probe, Body(baseline).value, delta)
  {
    var body := Body(baseline);
    if body.None? {
      return BaselineUnavailable;
    }
    var ipnet := BlockOf(ip, prefix);
    NetworkOfBlock(ip, prefix);
    var probed, reports := Sweep(ipnet, Masked(ip, Mask(prefix)), probe, body.value, delta);
    return Completed(probed, reports);
  }
}
