/**
 * The discovery sweep of `dino init` (src/dino.py:107-131): after the
 * liveness gate, every address of the node's own /24 subnet except its own
 * is sent a join request, in ascending order of the last field, and each
 * candidate that answers 201 is registered.
 */
module Sweep {
  import opened Wrappers
  import opened PyText
  import opened Http

  /** Number of values `range(0, 256)` yields: the slots of a /24 subnet. */
  const SubnetSize: nat := 256

  /** The status with which a candidate accepts the join request. */
  const Accepted201: int := 201

  /** The two halves of `ip:port`, the node's configured base address. */
  datatype Endpoint = Endpoint(ip: string, port: string)

  /**
   * `my_ip, port = base.split(":")`: exactly two fields, or the unpacking
   * raises (`None` here).
   */
  function SplitBase(base: string): (r: Option<Endpoint>)
    ensures r.None? <==> |Split(base, ':')| != 2
    ensures r.Some? ==> base == r.value.ip + ":" + r.value.port
    ensures r.Some? ==> ':' !in r.value.ip && ':' !in r.value.port
  {
    var f := Split(base, ':');
    JoinSplit(base, ':');
    if |f| == 2 then Some(Endpoint(f[0], f[1])) else None
  }

  /** `fields[0:3]`: the first three fields, or all of them when there are fewer. */
  function FirstThree(fields: seq<string>): (r: seq<string>)
    ensures |r| == if |fields| < 3 then |fields| else 3
    ensures r <= fields
  {
    fields[..if |fields| < 3 then |fields| else 3]
  }

  /** `".".join(my_ip.split('.')[0:3])`: the /24 part of the node's IP. */
  function SubnetPrefix(ip: string): (r: string)
    ensures Split(r, '.') == FirstThree(Split(ip, '.'))
  {
    var f := Split(ip, '.');
    var f3 := FirstThree(f);
    assert forall k :: 0 <= k < |f3| ==> '.' !in f3[k] by {
      forall k | 0 <= k < |f3| ensures '.' !in f3[k] {
        assert f3[k] == f[k];
      }
    }
    SplitJoin(f3, '.');
    Join(f3, '.')
  }

  /** The IP half of candidate `i`. */
  function CandidateIp(ip: string, i: nat): string {
    SubnetPrefix(ip) + "." + Decimal(i)
  }

  /** `new_url` for slot `i` (src/dino.py:122-123). */
  function Candidate(e: Endpoint, i: nat): string {
    CandidateIp(e.ip, i) + ":" + e.port
  }

  /**
   * The slot at which the node's own address reappears among the
   * candidates: its IP has exactly four fields and the fourth is `str(i)`
   * for some `i < 256`.
   */
  function SelfSlot(ip: string): (r: Option<nat>)
    ensures r.Some? ==> r.value < SubnetSize
  {
    var f := Split(ip, '.');
    if |f| == 4 && IsOctetText(f[3]) then Some(ParseDigits(f[3])) else None
  }

  /**
   * The fields of a candidate IP: the first three fields of the node's IP
   * (fewer if it has fewer), then the decimal text of the slot.
   */
  lemma CandidateIpFields(ip: string, i: nat)
    ensures Split(CandidateIp(ip, i), '.') == FirstThree(Split(ip, '.')) + [Decimal(i)]
  {
    var f3 := FirstThree(Split(ip, '.'));
    JoinSnoc(f3, Decimal(i), '.');
    var parts := f3 + [Decimal(i)];
    assert forall k :: 0 <= k < |parts| ==> '.' !in parts[k] by {
      forall k | 0 <= k < |parts| ensures '.' !in parts[k] {
        if k < |f3| { assert parts[k] == Split(ip, '.')[k]; }
      }
    }
    SplitJoin(parts, '.');
  }

  lemma JoinAvoids(parts: seq<string>, sep: char, c: char)
    requires c != sep
    requires forall k :: 0 <= k < |parts| ==> c !in parts[k]
    ensures c !in Join(parts, sep)
    decreases |parts|
  {
    if |parts| > 1 {
      JoinAvoids(parts[1..], sep, c);
    }
  }

  lemma {:induction false} SplitAvoids(s: string, sep: char, c: char)
    requires c !in s
    ensures forall k :: 0 <= k < |Split(s, sep)| ==> c !in Split(s, sep)[k]
    decreases |s|
  {
    if |s| > 0 {
      assert c !in s[1..];
      SplitAvoids(s[1..], sep, c);
    }
  }

  /** A candidate splits back at ':' into its IP and the node's own port. */
  lemma CandidateEndpoint(e: Endpoint, i: nat)
    requires ':' !in e.ip && ':' !in e.port
    ensures SplitBase(Candidate(e, i)) == Some(Endpoint(CandidateIp(e.ip, i), e.port))
  {
    var prefix := FirstThree(Split(e.ip, '.'));
    SplitAvoids(e.ip, '.', ':');
    assert forall k :: 0 <= k < |prefix| ==> ':' !in prefix[k] by {
      forall k | 0 <= k < |prefix| ensures ':' !in prefix[k] {
        assert prefix[k] == Split(e.ip, '.')[k];
      }
    }
    JoinAvoids(prefix, '.', ':');
    var cip := CandidateIp(e.ip, i);
    assert ':' !in cip;
    SplitAtSep(cip, e.port, ':');
    SplitWithoutSep(e.port, ':');
  }

  lemma CancelSuffix(a: string, b: string, p: string)
    ensures a + p == b + p <==> a == b
  {
    if a + p == b + p {
      assert |a| == |b|;
      assert a == (a + p)[..|a|];
      assert b == (b + p)[..|b|];
    }
  }

  lemma CancelAround(p: string, x: string, y: string, s: string)
    requires p + x + s == p + y + s
    requires |x| == |y|
    ensures x == y
  {
    assert x == (p + x + s)[|p|..|p| + |x|];
    assert y == (p + y + s)[|p|..|p| + |y|];
  }

  /** Distinct slots give distinct candidates. */
  lemma CandidateInjective(e: Endpoint, i: nat, j: nat)
    requires Candidate(e, i) == Candidate(e, j)
    ensures i == j
  {
    var p := SubnetPrefix(e.ip) + ".";
    var s := ":" + e.port;
    assert Candidate(e, i) == p + Decimal(i) + s;
    assert Candidate(e, j) == p + Decimal(j) + s;
    assert |Decimal(i)| == |Decimal(j)|;
    CancelAround(p, Decimal(i), Decimal(j), s);
    DecimalInjective(i, j);
  }

  /**
   * Candidate `i` equals the node's own base address exactly when `i` is
   * the node's own slot in its subnet.
   */
  lemma CandidateIsSelf(e: Endpoint, base: string, i: nat)
    requires base == e.ip + ":" + e.port
    requires i < SubnetSize
    ensures Candidate(e, i) == base <==> SelfSlot(e.ip) == Some(i)
  {
    var cip, tail := CandidateIp(e.ip, i), ":" + e.port;
    assert Candidate(e, i) == cip + tail;
    assert base == e.ip + tail;
    CancelSuffix(cip, e.ip, tail);
    SelfIff(e.ip, i);
  }

  lemma SelfIff(ip: string, i: nat)
    requires i < SubnetSize
    ensures CandidateIp(ip, i) == ip <==> SelfSlot(ip) == Some(i)
  {
    if CandidateIp(ip, i) == ip {
      SelfFromCandidate(ip, i);
    }
    if SelfSlot(ip) == Some(i) {
      CandidateFromSelf(ip, i);
    }
  }

  lemma SelfFromCandidate(ip: string, i: nat)
    requires i < SubnetSize
    requires CandidateIp(ip, i) == ip
    ensures SelfSlot(ip) == Some(i)
  {
    var f := Split(ip, '.');
    CandidateIpFields(ip, i);
    assert f == FirstThree(f) + [Decimal(i)];
    assert |f| == 4 && f[3] == Decimal(i);
    ParseDecimal(i);
  }

  lemma CandidateFromSelf(ip: string, i: nat)
    requires SelfSlot(ip) == Some(i)
    ensures CandidateIp(ip, i) == ip
  {
    var f := Split(ip, '.');
    DecimalParse(f[3]);
    assert f == FirstThree(f) + [Decimal(i)];
    JoinSplit(ip, '.');
    JoinSnoc(FirstThree(f), Decimal(i), '.');
  }

  /** The slots below `n` that are probed, in the order the loop visits them. */
  function ProbedSlots(e: Endpoint, base: string, n: nat): seq<nat>
    decreases n
  {
    if n == 0 then []
    else ProbedSlots(e, base, n - 1) + (if Candidate(e, n - 1) == base then [] else [n - 1])
  }

  /** The candidate addresses of a sequence of slots. */
  function Candidates(e: Endpoint, slots: seq<nat>): (r: seq<string>)
    ensures |r| == |slots|
    ensures forall k :: 0 <= k < |slots| ==> r[k] == Candidate(e, slots[k])
  {
    seq(|slots|, k requires 0 <= k < |slots| => Candidate(e, slots[k]))
  }

  /** The addresses a full sweep from base address `e` probes, in order. */
  function SweepTargets(e: Endpoint, base: string): seq<string> {
    Candidates(e, ProbedSlots(e, base, SubnetSize))
  }

  /** The reply of the join request `get_data(new_url + "/join")`. */
  function ProbeReply(c: string, net: Network): (r: Reply)
    ensures Denormalise(r) == net(Get("http://" + c + "/join"))
    ensures r.data.ErrorDict? <==> net(Get("http://" + c + "/join")).Raised?
    ensures net(Get("http://" + c + "/join")).Raised? ==> r.status == TransportErrorStatus
  {
    assert "http://" + (c + "/join") == "http://" + c + "/join";
    GetData(c + "/join", MethodGet, net).value
  }

  /** The probed addresses whose join request answered 201, in probe order. */
  function Registrations(probed: seq<string>, net: Network): seq<string>
    decreases |probed|
  {
    if |probed| == 0 then []
    else
      var last := probed[|probed| - 1];
      Registrations(probed[..|probed| - 1], net)
        + (if ProbeReply(last, net).status == Accepted201 then [last] else [])
  }

  /** The probed slots are strictly ascending and all below `n`. */
  lemma {:induction false} ProbedSlotsAscending(e: Endpoint, base: string, n: nat)
    ensures forall k :: 0 <= k < |ProbedSlots(e, base, n)| ==> ProbedSlots(e, base, n)[k] < n
    ensures forall a, b :: 0 <= a < b < |ProbedSlots(e, base, n)| ==>
              ProbedSlots(e, base, n)[a] < ProbedSlots(e, base, n)[b]
    decreases n
  {
    if n > 0 {
      ProbedSlotsAscending(e, base, n - 1);
    }
  }

  /** Exactly the slots below `n` whose candidate is not the node itself are probed. */
  lemma {:induction false} ProbedSlotsExactly(e: Endpoint, base: string, n: nat)
    ensures forall j: nat :: j in ProbedSlots(e, base, n) <==> j < n && Candidate(e, j) != base
    decreases n
  {
    if n > 0 {
      ProbedSlotsExactly(e, base, n - 1);
    }
  }

  /** Below `n`, only the node's own slot (when it has one) is skipped. */
  lemma {:induction false} ProbedSlotsCount(e: Endpoint, base: string, n: nat)
    requires SplitBase(base) == Some(e)
    requires n <= SubnetSize
    ensures |ProbedSlots(e, base, n)| ==
              n - (if SelfSlot(e.ip).Some? && SelfSlot(e.ip).value < n then 1 else 0)
    decreases n
  {
    if n > 0 {
      ProbedSlotsCount(e, base, n - 1);
      CandidateIsSelf(e, base, n - 1);
    }
  }

  /**
   * The sweep probes the candidates of slots 0 through 255 in strictly
   * ascending order, leaving out exactly the slots whose candidate is the
   * node's own address.
   */
  lemma SweepOrder(e: Endpoint, base: string)
    ensures forall a, b :: 0 <= a < b < |ProbedSlots(e, base, SubnetSize)| ==>
              ProbedSlots(e, base, SubnetSize)[a] < ProbedSlots(e, base, SubnetSize)[b]
    ensures forall j: nat :: j in ProbedSlots(e, base, SubnetSize) <==> j < SubnetSize && Candidate(e, j) != base
  {
    ProbedSlotsAscending(e, base, SubnetSize);
    ProbedSlotsExactly(e, base, SubnetSize);
  }

  /**
   * Every probed address is `a.b.c.i:port`: the first three fields of the
   * node's IP, the decimal text of a slot below 256, and the node's port.
   */
  lemma SweepAddressForm(e: Endpoint, base: string, k: nat)
    requires SplitBase(base) == Some(e)
    requires k < |SweepTargets(e, base)|
    ensures var i := ProbedSlots(e, base, SubnetSize)[k];
            && i < SubnetSize
            && SplitBase(SweepTargets(e, base)[k]) == Some(Endpoint(CandidateIp(e.ip, i), e.port))
            && Split(CandidateIp(e.ip, i), '.') == FirstThree(Split(e.ip, '.')) + [Decimal(i)]
  {
    var i := ProbedSlots(e, base, SubnetSize)[k];
    ProbedSlotsAscending(e, base, SubnetSize);
    CandidateEndpoint(e, i);
    CandidateIpFields(e.ip, i);
  }

  /** The node's own address is never probed. */
  lemma SweepSkipsSelf(e: Endpoint, base: string)
    ensures base !in SweepTargets(e, base)
  {
    var slots := ProbedSlots(e, base, SubnetSize);
    ProbedSlotsExactly(e, base, SubnetSize);
    forall k | 0 <= k < |slots| ensures SweepTargets(e, base)[k] != base {
      assert slots[k] in slots;
    }
  }

  /** No address is probed twice. */
  lemma SweepDistinct(e: Endpoint, base: string)
    ensures forall a, b :: 0 <= a < b < |SweepTargets(e, base)| ==>
              SweepTargets(e, base)[a] != SweepTargets(e, base)[b]
  {
    var slots := ProbedSlots(e, base, SubnetSize);
    ProbedSlotsAscending(e, base, SubnetSize);
    forall a, b | 0 <= a < b < |slots|
      ensures SweepTargets(e, base)[a] != SweepTargets(e, base)[b]
    {
      if Candidate(e, slots[a]) == Candidate(e, slots[b]) {
        CandidateInjective(e, slots[a], slots[b]);
      }
    }
  }

  /**
   * A sweep probes 255 addresses when the node's own address is one of
   * the candidates (its IP has four fields and the fourth is `str(i)` for
   * some `i < 256`), and 256 otherwise.
   */
  lemma SweepCount(e: Endpoint, base: string)
    requires SplitBase(base) == Some(e)
    ensures |SweepTargets(e, base)| == if SelfSlot(e.ip).Some? then 255 else 256
    ensures |SweepTargets(e, base)| == 255 <==>
              |Split(e.ip, '.')| == 4 && exists i: nat :: i < SubnetSize && Decimal(i) == Split(e.ip, '.')[3]
  {
    ProbedSlotsCount(e, base, SubnetSize);
    var f := Split(e.ip, '.');
    if |f| == 4 {
      OctetTextIsDecimal(f[3]);
    }
  }

  /** Exactly the probed addresses that answered 201 are registered. */
  lemma {:induction false} RegistrationsExactly(probed: seq<string>, net: Network)
    ensures forall c :: c in Registrations(probed, net) <==>
              c in probed && ProbeReply(c, net).status == Accepted201
    decreases |probed|
  {
    if |probed| > 0 {
      var init := probed[..|probed| - 1];
      RegistrationsExactly(init, net);
      assert probed == init + [probed[|probed| - 1]];
    }
  }

  /** Registrations happen in probe order. */
  lemma {:induction false} RegistrationsInOrder(probed: seq<string>, net: Network, j: nat, k: nat)
    requires j < k < |Registrations(probed, net)|
    ensures exists p, q :: 0 <= p < q < |probed| &&
              probed[p] == Registrations(probed, net)[j] && probed[q] == Registrations(probed, net)[k]
    decreases |probed|
  {
    var init := probed[..|probed| - 1];
    var regs := Registrations(probed, net);
    if k < |Registrations(init, net)| {
      RegistrationsInOrder(init, net, j, k);
      var p, q :| 0 <= p < q < |init| &&
        init[p] == Registrations(init, net)[j] && init[q] == Registrations(init, net)[k];
      assert probed[p] == regs[j] && probed[q] == regs[k];
    } else {
      RegistrationsExactly(init, net);
      assert regs[j] in Registrations(init, net);
      var p :| 0 <= p < |init| && init[p] == regs[j];
      assert probed[p] == regs[j] && probed[|probed| - 1] == regs[k];
    }
  }

  /** A candidate whose join request raised is never registered: its status is 400. */
  lemma RaisedProbeNeverRegistered(probed: seq<string>, net: Network, c: string)
    requires net(Get("http://" + c + "/join")).Raised?
    ensures c !in Registrations(probed, net)
  {
    RegistrationsExactly(probed, net);
  }

  /** Distinct probes give distinct registrations. */
  lemma {:induction false} RegistrationsDistinct(probed: seq<string>, net: Network)
    requires forall a, b :: 0 <= a < b < |probed| ==> probed[a] != probed[b]
    ensures forall a, b :: 0 <= a < b < |Registrations(probed, net)| ==>
              Registrations(probed, net)[a] != Registrations(probed, net)[b]
    decreases |probed|
  {
    if |probed| > 0 {
      var init := probed[..|probed| - 1];
      RegistrationsDistinct(init, net);
      RegistrationsExactly(init, net);
      assert probed[|probed| - 1] !in init;
    }
  }

  /** One probed slot extends both logs at their end. */
  lemma ProbeStep(e: Endpoint, base: string, i: nat, probed: seq<string>, net: Network)
    requires Candidate(e, i) != base
    ensures ProbedSlots(e, base, i + 1) == ProbedSlots(e, base, i) + [i]
    ensures probed == Candidates(e, ProbedSlots(e, base, i)) ==>
              probed + [Candidate(e, i)] == Candidates(e, ProbedSlots(e, base, i + 1))
    ensures Registrations(probed + [Candidate(e, i)], net)
              == Registrations(probed, net)
                 + (if ProbeReply(Candidate(e, i), net).status == Accepted201 then [Candidate(e, i)] else [])
  {
  }

  /** A skipped slot leaves the probed slots as they were. */
  lemma SkipStep(e: Endpoint, base: string, i: nat)
    requires Candidate(e, i) == base
    ensures ProbedSlots(e, base, i + 1) == ProbedSlots(e, base, i)
  {
  }

  /** Outcome of `dino init`. */
  datatype InitOutcome =
    | ServerDown   // the liveness check failed; nothing was probed
    | Unparsable   // the base address does not split into `ip:port`
    | Swept        // all 256 slots were visited

  /**
   * `init`: the liveness gate, then the sweep loop over `range(0, 256)`.
   * `probed` logs each address sent a join request, `registered` each
   * address handed to `add_user`.
   */
  method Init(base: string, net: Network) returns (outcome: InitOutcome, probed: seq<string>, registered: seq<string>)
    ensures outcome == ServerDown <==> !CheckServer(base, net)
    ensures outcome == Unparsable <==> CheckServer(base, net) && SplitBase(base).None?
    ensures outcome != Swept ==> probed == [] && registered == []
    ensures outcome == Swept ==> probed == SweepTargets(SplitBase(base).value, base)
    ensures registered == Registrations(probed, net)
  {
    probed, registered := [], [];
    if !CheckServer(base, net) {
      outcome := ServerDown;
      return;
    }
    var i := 0;
    while i < SubnetSize
      invariant 0 <= i <= SubnetSize
      invariant i > 0 ==> SplitBase(base).Some?
      invariant i == 0 ==> probed == []
      invariant i > 0 ==> probed == Candidates(SplitBase(base).value, ProbedSlots(SplitBase(base).value, base, i))
      invariant registered == Registrations(probed, net)
    {
      var ep := SplitBase(base);
      if ep.None? {
        outcome := Unparsable;
        return;
      }
      var e := ep.value;
      var newUrl := Candidate(e, i);
      if newUrl == base {
        SkipStep(e, base, i);
        i := i + 1;
        continue;
      }
      var reply := ProbeReply(newUrl, net);
      ProbeStep(e, base, i, probed, net);
      probed := probed + [newUrl];
      if reply.status == Accepted201 {
        registered := registered + [newUrl];
      }
      i := i + 1;
    }
    outcome := Swept;
  }
}
