/**
 * unix_domain/lib/cmd_proto.cpp: the ROUTE_ADD handlers. The kernel is an object that records every
 * installation attempt and answers the k-th one as it pleases.
 */
module Handlers {
  import opened Bytes
  import opened RoutePayloads
  import opened RouteStatus

  datatype RouteAdd = RouteAdd(dst: Ipv4, prefixLen: byte, gateway: Ipv4, ifName: IfaceName)

  class Kernel {
    const answer: nat -> bool
    var attempts: seq<RouteAdd>

    constructor (answer: nat -> bool)
      ensures this.answer == answer && attempts == []
    {
      this.answer := answer;
      attempts := [];
    }

    method AddRoute(r: RouteAdd) returns (ok: bool)
      modifies this
      ensures attempts == old(attempts) + [r]
      ensures ok == answer(|old(attempts)|)
    {
      ok := answer(|attempts|);
      attempts := attempts + [r];
    }
  }

  /** One attempt per prefix, in order. */
  function Attempts(hop: Interface, ps: seq<PrefixIpv4>): (r: seq<RouteAdd>)
    ensures |r| == |ps|
  {
    if ps == [] then []
    else [RouteAdd(ps[0].addr, ps[0].maskLen, hop.nexthopAddr, hop.ifaceName)] + Attempts(hop, ps[1..])
  }

  function AllAttempts(hops: seq<Interface>): seq<RouteAdd> {
    if hops == [] then []
    else Attempts(hops[0], hops[0].prefixes) + AllAttempts(hops[1..])
  }

  /** The number of prefixes of the entries before the k-th. */
  function Before(hops: seq<Interface>, k: nat): nat
    requires k <= |hops|
  {
    if k == 0 then 0 else Before(hops, k - 1) + |hops[k - 1].prefixes|
  }

  /** A route for a prefix by way of an interface's next hop. */
  predicate IsRouteTo(r: RouteAdd, hop: Interface, pfx: PrefixIpv4) {
    r.dst == pfx.addr && r.prefixLen == pfx.maskLen && r.gateway == hop.nexthopAddr && r.ifName == hop.ifaceName
  }

  lemma {:induction false} AttemptAt(hop: Interface, ps: seq<PrefixIpv4>, i: nat)
    requires i < |ps|
    ensures IsRouteTo(Attempts(hop, ps)[i], hop, ps[i])
  {
    if i > 0 {
      AttemptAt(hop, ps[1..], i - 1);
    }
  }

  lemma {:induction false} BeforeTail(hops: seq<Interface>, k: nat)
    requires 0 < k <= |hops|
    ensures Before(hops, k) == |hops[0].prefixes| + Before(hops[1..], k - 1)
  {
    if k > 1 {
      BeforeTail(hops, k - 1);
    }
  }

  lemma {:induction false} AllAttemptsSize(hops: seq<Interface>)
    ensures |AllAttempts(hops)| == Before(hops, |hops|)
  {
    if hops != [] {
      AllAttemptsSize(hops[1..]);
      BeforeTail(hops, |hops|);
    }
  }

  lemma {:induction false} BeforeGrows(hops: seq<Interface>, k: nat, n: nat)
    requires k < n <= |hops|
    ensures Before(hops, k) + |hops[k].prefixes| <= Before(hops, n)
  {
    if k + 1 < n {
      BeforeGrows(hops, k, n - 1);
    }
  }

  /** The attempt for the j-th prefix of the k-th entry stands behind those of all earlier prefixes. */
  lemma {:induction false} AllAttemptsAt(hops: seq<Interface>, k: nat, j: nat)
    requires k < |hops| && j < |hops[k].prefixes|
    ensures Before(hops, k) + j < |AllAttempts(hops)|
    ensures IsRouteTo(AllAttempts(hops)[Before(hops, k) + j], hops[k], hops[k].prefixes[j])
  {
    if k == 0 {
      AttemptAt(hops[0], hops[0].prefixes, j);
    } else {
      BeforeTail(hops, k);
      AllAttemptsAt(hops[1..], k - 1, j);
    }
  }

  /** The kernel's answers to n attempts from the k-th on. */
  function Answers(answer: nat -> bool, k: nat, n: nat): (s: bits)
    ensures |s| == n
    ensures forall i :: 0 <= i < n ==> s[i] == answer(k + i)
    decreases n
  {
    if n == 0 then [] else [answer(k)] + Answers(answer, k + 1, n - 1)
  }

  predicate AllTrue(s: bits) {
    forall i :: 0 <= i < |s| ==> s[i]
  }

  /** The inner loop of both handlers: every prefix is attempted, whatever became of the earlier ones. */
  method InstallPrefixes(kernel: Kernel, hop: Interface) returns (status: bits)
    modifies kernel
    ensures kernel.attempts == old(kernel.attempts) + Attempts(hop, hop.prefixes)
    ensures status == Answers(kernel.answer, |old(kernel.attempts)|, |hop.prefixes|)
    ensures |kernel.attempts| == |old(kernel.attempts)| + |hop.prefixes| && old(kernel.attempts) <= kernel.attempts
    ensures forall i :: 0 <= i < |hop.prefixes| ==>
      IsRouteTo(kernel.attempts[|old(kernel.attempts)| + i], hop, hop.prefixes[i])
    ensures |status| == |hop.prefixes|
    ensures forall i :: 0 <= i < |status| ==> status[i] == kernel.answer(|old(kernel.attempts)| + i)
  {
    status := [];
    for i := 0 to |hop.prefixes|
      invariant |status| == i && |kernel.attempts| == |old(kernel.attempts)| + i
      invariant kernel.attempts + Attempts(hop, hop.prefixes[i..]) == old(kernel.attempts) + Attempts(hop, hop.prefixes)
      invariant forall j :: 0 <= j < i ==> status[j] == kernel.answer(|old(kernel.attempts)| + j)
    {
      var pfx := hop.prefixes[i];
      ghost var before := kernel.attempts;
      var route := RouteAdd(pfx.addr, pfx.maskLen, hop.nexthopAddr, hop.ifaceName);
      var ok := kernel.AddRoute(route);
      ConcatAssoc(before, [route], Attempts(hop, hop.prefixes[i + 1..]));
      status := status + [ok];
    }
    assert kernel.attempts + [] == kernel.attempts;
    forall i | 0 <= i < |hop.prefixes|
      ensures IsRouteTo(kernel.attempts[|old(kernel.attempts)| + i], hop, hop.prefixes[i])
    {
      AttemptAt(hop, hop.prefixes, i);
    }
  }

  method HandleInterfaces(kernel: Kernel, hops: seq<Interface>) returns (resp: BinaryResponse)
    modifies kernel
    ensures kernel.attempts == old(kernel.attempts) + AllAttempts(hops)
    ensures resp.prefixStatus == Answers(kernel.answer, |old(kernel.attempts)|, |AllAttempts(hops)|)
    ensures resp.statusCode == if AllTrue(resp.prefixStatus) then 0 else 1
    ensures old(kernel.attempts) <= kernel.attempts && Placed(kernel.attempts, |old(kernel.attempts)|, hops)
    ensures |resp.prefixStatus| == Before(hops, |hops|)
    ensures forall i :: 0 <= i < |resp.prefixStatus| ==>
      resp.prefixStatus[i] == kernel.answer(|old(kernel.attempts)| + i)
    ensures resp.statusCode == 0 <==> forall i :: 0 <= i < |resp.prefixStatus| ==> resp.prefixStatus[i]
  {
    var statusCode: byte := 0;
    var prefixStatus: bits := [];
    for k := 0 to |hops|
      invariant kernel.attempts + AllAttempts(hops[k..]) == old(kernel.attempts) + AllAttempts(hops)
      invariant |kernel.attempts| == |old(kernel.attempts)| + |prefixStatus|
      invariant forall i :: 0 <= i < |prefixStatus| ==> prefixStatus[i] == kernel.answer(|old(kernel.attempts)| + i)
      invariant statusCode == if AllTrue(prefixStatus) then 0 else 1
    {
      ghost var before, earlier := kernel.attempts, prefixStatus;
      var status := InstallPrefixes(kernel, hops[k]);
      prefixStatus := prefixStatus + status;
      AllTrueConcat(earlier, status);
      if exists i :: 0 <= i < |status| && !status[i] {
        statusCode := 1;
      }
      ConcatAssoc(before, Attempts(hops[k], hops[k].prefixes), AllAttempts(hops[k + 1..]));
    }
    assert kernel.attempts + [] == kernel.attempts;
    assert Placed(kernel.attempts, |old(kernel.attempts)|, hops) by {
      AllPlaced(hops, old(kernel.attempts));
    }
    AllAttemptsSize(hops);
    resp := BinaryResponse(statusCode, prefixStatus);
  }

  /** The attempts from the n-th on: for the j-th prefix of the k-th entry, behind those of all earlier prefixes. */
  ghost predicate Placed(attempts: seq<RouteAdd>, n: nat, hops: seq<Interface>) {
    && |attempts| == n + Before(hops, |hops|)
    && forall k, j :: 0 <= k < |hops| && 0 <= j < |hops[k].prefixes| ==>
         PlacedAt(attempts, n + Before(hops, k) + j, hops[k], hops[k].prefixes[j])
  }

  ghost predicate PlacedAt(attempts: seq<RouteAdd>, n: nat, hop: Interface, pfx: PrefixIpv4) {
    n < |attempts| && IsRouteTo(attempts[n], hop, pfx)
  }

  lemma AllPlaced(hops: seq<Interface>, before: seq<RouteAdd>)
    ensures Placed(before + AllAttempts(hops), |before|, hops)
  {
    AllAttemptsSize(hops);
    forall k, j | 0 <= k < |hops| && 0 <= j < |hops[k].prefixes|
      ensures PlacedAt(before + AllAttempts(hops), |before| + Before(hops, k) + j, hops[k], hops[k].prefixes[j])
    {
      AllAttemptsAt(hops, k, j);
    }
  }

  lemma AllTrueConcat(s: bits, t: bits)
    ensures AllTrue(s + t) <==> AllTrue(s) && AllTrue(t)
  {
    var u := s + t;
    assert forall i :: 0 <= i < |s| ==> u[i] == s[i];
    assert forall i :: 0 <= i < |t| ==> t[i] == u[|s| + i];
    assert forall i :: |s| <= i < |u| ==> u[i] == t[i - |s|];
  }

  function Hops(vrs: seq<VrfsRequest>): (hs: seq<Interface>)
    ensures |hs| == |vrs| && forall i :: 0 <= i < |vrs| ==> hs[i] == vrs[i].hop
  {
    if vrs == [] then [] else [vrs[0].hop] + Hops(vrs[1..])
  }

  /** The kernel accepted each of n attempts from the k-th on. */
  ghost predicate Succeeded(answer: nat -> bool, k: nat, n: nat) {
    forall i :: k <= i < k + n ==> answer(i)
  }

  lemma AnswersSucceeded(answer: nat -> bool, k: nat, n: nat)
    ensures AllTrue(Answers(answer, k, n)) <==> Succeeded(answer, k, n)
  {
    var s := Answers(answer, k, n);
    if AllTrue(s) {
      forall i | k <= i < k + n
        ensures answer(i)
      {
        assert s[i - k];
      }
    }
  }

  /** One answer per VRF: its name, and whether all of its own attempts succeeded. */
  ghost function VrfAnswers(vrs: seq<VrfsRequest>, answer: nat -> bool, k: nat): (r: seq<VrfsAnswer>)
    ensures |r| == |vrs|
    decreases |vrs|
  {
    if vrs == [] then []
    else
      var n := |vrs[0].hop.prefixes|;
      [VrfsAnswer(vrs[0].vrfsName, Succeeded(answer, k, n))] + VrfAnswers(vrs[1..], answer, k + n)
  }

  predicate AllOk(answers: seq<VrfsAnswer>) {
    answers != [] ==> answers[0].ok && AllOk(answers[1..])
  }

  lemma {:induction false} AllOkSnoc(answers: seq<VrfsAnswer>, a: VrfsAnswer)
    ensures AllOk(answers + [a]) <==> AllOk(answers) && a.ok
  {
    if answers != [] {
      assert (answers + [a])[1..] == answers[1..] + [a];
      AllOkSnoc(answers[1..], a);
    }
  }

  /** One turn of the VRF handler's loop. */
  method HandleVrf(kernel: Kernel, vr: VrfsRequest) returns (ans: VrfsAnswer)
    modifies kernel
    ensures kernel.attempts == old(kernel.attempts) + Attempts(vr.hop, vr.hop.prefixes)
    ensures ans == VrfsAnswer(vr.vrfsName, Succeeded(kernel.answer, |old(kernel.attempts)|, |vr.hop.prefixes|))
  {
    var status := InstallPrefixes(kernel, vr.hop);
    var vrfOk := forall i :: 0 <= i < |status| ==> status[i];
    AnswersSucceeded(kernel.answer, |old(kernel.attempts)|, |status|);
    ans := VrfsAnswer(vr.vrfsName, vrfOk);
  }

  lemma {:induction false} AttemptsSnoc(hops: seq<Interface>, hop: Interface)
    ensures AllAttempts(hops + [hop]) == AllAttempts(hops) + Attempts(hop, hop.prefixes)
  {
    if hops == [] {
      assert hops + [hop] == [hop] && AllAttempts([hop][1..]) == [];
    } else {
      assert (hops + [hop])[1..] == hops[1..] + [hop];
      AttemptsSnoc(hops[1..], hop);
      ConcatAssoc(Attempts(hops[0], hops[0].prefixes), AllAttempts(hops[1..]), Attempts(hop, hop.prefixes));
    }
  }

  lemma {:induction false} AnswersSnoc(vrs: seq<VrfsRequest>, v: VrfsRequest, answer: nat -> bool, at: nat)
    ensures VrfAnswers(vrs + [v], answer, at) == VrfAnswers(vrs, answer, at)
      + [VrfsAnswer(v.vrfsName, Succeeded(answer, at + |AllAttempts(Hops(vrs))|, |v.hop.prefixes|))]
    decreases |vrs|
  {
    if vrs == [] {
      assert vrs + [v] == [v] && VrfAnswers([v][1..], answer, at + |v.hop.prefixes|) == [];
    } else {
      var n := |vrs[0].hop.prefixes|;
      assert (vrs + [v])[1..] == vrs[1..] + [v];
      AnswersSnoc(vrs[1..], v, answer, at + n);
      assert Hops(vrs)[1..] == Hops(vrs[1..]);
    }
  }

  /** Where the handler stands before the k-th VRF. */
  ghost predicate Reached(vrs: seq<VrfsRequest>, k: nat, answer: nat -> bool, start: seq<RouteAdd>,
                          attempts: seq<RouteAdd>, answers: seq<VrfsAnswer>)
    requires k <= |vrs|
  {
    && attempts == start + AllAttempts(Hops(vrs[..k]))
    && answers == VrfAnswers(vrs[..k], answer, |start|)
  }

  lemma ReachedNext(vrs: seq<VrfsRequest>, k: nat, answer: nat -> bool, start: seq<RouteAdd>,
                    attempts: seq<RouteAdd>, answers: seq<VrfsAnswer>, ans: VrfsAnswer)
    requires k < |vrs| && Reached(vrs, k, answer, start, attempts, answers)
    requires ans == VrfsAnswer(vrs[k].vrfsName, Succeeded(answer, |attempts|, |vrs[k].hop.prefixes|))
    ensures Reached(vrs, k + 1, answer, start, attempts + Attempts(vrs[k].hop, vrs[k].hop.prefixes), answers + [ans])
  {
    var front, v := vrs[..k], vrs[k];
    assert vrs[..k + 1] == front + [v];
    assert Hops(front + [v]) == Hops(front) + [v.hop];
    AttemptsSnoc(Hops(front), v.hop);
    ConcatAssoc(start, AllAttempts(Hops(front)), Attempts(v.hop, v.hop.prefixes));
    AnswersSnoc(front, v, answer, |start|);
  }

  lemma {:induction false} AllOkMeans(answers: seq<VrfsAnswer>)
    ensures AllOk(answers) <==> forall k :: 0 <= k < |answers| ==> answers[k].ok
  {
    if answers != [] {
      AllOkMeans(answers[1..]);
      assert forall k :: 1 <= k < |answers| ==> answers[k] == answers[1..][k - 1];
    }
  }

  lemma AnswersTail(vrs: seq<VrfsRequest>, answer: nat -> bool, at: nat, k: nat)
    requires 0 < k < |vrs|
    ensures VrfAnswers(vrs, answer, at)[k] == VrfAnswers(vrs[1..], answer, at + |vrs[0].hop.prefixes|)[k - 1]
  {
  }

  lemma BeforeVrf(vrs: seq<VrfsRequest>, k: nat)
    requires 0 < k < |vrs|
    ensures Before(Hops(vrs), k) == |vrs[0].hop.prefixes| + Before(Hops(vrs[1..]), k - 1)
  {
    BeforeTail(Hops(vrs), k);
    assert Hops(vrs)[1..] == Hops(vrs[1..]);
  }

  lemma {:induction false} AnswerPlaced(vrs: seq<VrfsRequest>, answer: nat -> bool, at: nat, k: nat)
    requires k < |vrs|
    ensures VrfAnswers(vrs, answer, at)[k]
         == VrfsAnswer(vrs[k].vrfsName, Succeeded(answer, at + Before(Hops(vrs), k), |vrs[k].hop.prefixes|))
    decreases k
  {
    if k > 0 {
      BeforeVrf(vrs, k);
      AnswersTail(vrs, answer, at, k);
      AnswerPlaced(vrs[1..], answer, at + |vrs[0].hop.prefixes|, k - 1);
    }
  }

  /** One answer for each VRF, of its name, good if and only if the kernel accepted every one of its prefixes. */
  ghost predicate Answered(answers: seq<VrfsAnswer>, vrs: seq<VrfsRequest>, answer: nat -> bool, n: nat) {
    && |answers| == |vrs|
    && forall k :: 0 <= k < |vrs| ==>
         && answers[k].vrfsName == vrs[k].vrfsName
         && (answers[k].ok <==> Succeeded(answer, n + Before(Hops(vrs), k), |vrs[k].hop.prefixes|))
  }

  lemma AllAnswered(vrs: seq<VrfsRequest>, answer: nat -> bool, n: nat)
    ensures Answered(VrfAnswers(vrs, answer, n), vrs, answer, n)
  {
    forall k | 0 <= k < |vrs|
      ensures VrfAnswers(vrs, answer, n)[k].vrfsName == vrs[k].vrfsName
      ensures VrfAnswers(vrs, answer, n)[k].ok <==> Succeeded(answer, n + Before(Hops(vrs), k), |vrs[k].hop.prefixes|)
    {
      AnswerPlaced(vrs, answer, n, k);
    }
  }

  /** The loop over the VRFs. */
  method RunVrfs(kernel: Kernel, vrs: seq<VrfsRequest>) returns (resp: VrfsResponse)
    modifies kernel
    ensures kernel.attempts == old(kernel.attempts) + AllAttempts(Hops(vrs))
    ensures resp.answers == VrfAnswers(vrs, kernel.answer, |old(kernel.attempts)|)
    ensures resp.statusCode == if AllOk(resp.answers) then 0 else 1
  {
    var statusCode: byte := 0;
    var answers: seq<VrfsAnswer> := [];
    ghost var start := kernel.attempts;
    assert kernel.attempts + [] == kernel.attempts;
    for k := 0 to |vrs|
      invariant Reached(vrs, k, kernel.answer, start, kernel.attempts, answers)
      invariant statusCode == if AllOk(answers) then 0 else 1
    {
      ghost var before := kernel.attempts;
      var ans := HandleVrf(kernel, vrs[k]);
      assert Reached(vrs, k + 1, kernel.answer, start, kernel.attempts, answers + [ans]) by {
        ReachedNext(vrs, k, kernel.answer, start, before, answers, ans);
      }
      AllOkSnoc(answers, ans);
      answers := answers + [ans];
      if !ans.ok {
        statusCode := 1;
      }
    }
    assert vrs[..|vrs|] == vrs;
    resp := VrfsResponse(statusCode, answers);
  }

  method HandleVrfs(kernel: Kernel, vrs: seq<VrfsRequest>) returns (resp: VrfsResponse)
    modifies kernel
    ensures kernel.attempts == old(kernel.attempts) + AllAttempts(Hops(vrs))
    ensures resp.answers == VrfAnswers(vrs, kernel.answer, |old(kernel.attempts)|)
    ensures resp.statusCode == if AllOk(resp.answers) then 0 else 1
    ensures old(kernel.attempts) <= kernel.attempts && Placed(kernel.attempts, |old(kernel.attempts)|, Hops(vrs))
    ensures Answered(resp.answers, vrs, kernel.answer, |old(kernel.attempts)|)
    ensures resp.statusCode == 0 <==> forall k :: 0 <= k < |vrs| ==> resp.answers[k].ok
  {
    resp := RunVrfs(kernel, vrs);
    assert Placed(kernel.attempts, |old(kernel.attempts)|, Hops(vrs)) by {
      AllPlaced(Hops(vrs), old(kernel.attempts));
    }
    assert Answered(resp.answers, vrs, kernel.answer, |old(kernel.attempts)|) by {
      AllAnswered(vrs, kernel.answer, |old(kernel.attempts)|);
    }
    AllOkMeans(resp.answers);
  }

  /** All VRFs are reported installed exactly when every single attempt of the request succeeded. */
  lemma {:induction false} VrfStatusIsConjunction(vrs: seq<VrfsRequest>, answer: nat -> bool, k: nat)
    ensures AllOk(VrfAnswers(vrs, answer, k)) <==> Succeeded(answer, k, |AllAttempts(Hops(vrs))|)
    decreases |vrs|
  {
    if vrs != [] {
      VrfStatusIsConjunction(vrs[1..], answer, k + |vrs[0].hop.prefixes|);
      assert Hops(vrs)[1..] == Hops(vrs[1..]);
    }
  }
}
