/** Flows drawn host by host and merged by time (traffic_gen/traffic_gen.py). */
module TrafficGen {
  const BASE_T := 2000000000

  datatype Flow = Flow(src: nat, dst: nat, size: int, t: int)

  // When a host sends next.
  type Arrival = (int, nat)

  // When the window ends, and the last whole time in it.
  ghost function EndOf(time: real): real { time + BASE_T as real }

  ghost function LastTime(end: real): int { end.Floor }

  // The order of tuples: by time, then by host.
  predicate Before(a: Arrival, b: Arrival) {
    a.0 < b.0 || (a.0 == b.0 && a.1 <= b.1)
  }

  ghost predicate IsHead(hosts: seq<Arrival>, k: nat) {
    k < |hosts| && forall i :: 0 <= i < |hosts| ==> Before(hosts[k], hosts[i])
  }

  // Of heapq only this is used: the head is the least entry.
  method Head(hosts: seq<Arrival>) returns (k: nat)
    requires hosts != []
    ensures IsHead(hosts, k)
  {
    k := 0;
    for i := 0 to |hosts|
      invariant k < |hosts| && forall j :: 0 <= j < i ==> Before(hosts[k], hosts[j])
    {
      if !Before(hosts[k], hosts[i]) {
        k := i;
      }
    }
  }

  // ---------- what one host does ----------

  // The inter-arrival times drawn for a host, from a log of (host, time) in the order of drawing.
  ghost function DrawsOf(log: seq<(nat, nat)>, host: nat): seq<nat> {
    if log == [] then [] else
      var d := log[|log| - 1];
      DrawsOf(log[..|log| - 1], host) + if d.0 == host then [d.1] else []
  }

  ghost function TimesOf(flows: seq<Flow>, host: nat): seq<int> {
    if flows == [] then [] else
      var f := flows[|flows| - 1];
      TimesOf(flows[..|flows| - 1], host) + if f.src == host then [f.t] else []
  }

  // The arrivals of a host: its first one, and one more after each draw.
  ghost function Arrivals(first: int, draws: seq<nat>): (a: seq<int>)
    ensures |a| == |draws| + 1
  {
    if draws == [] then [first] else
      var rest := Arrivals(first, draws[..|draws| - 1]);
      rest + [rest[|rest| - 1] + draws[|draws| - 1]]
  }

  // A host that is waiting: all its arrivals but the one it waits for have been sent.
  ghost predicate IsWaiting(first: int, draws: seq<nat>, times: seq<int>, t: int, end: real) {
    var a := Arrivals(first, draws);
    && t == a[|draws|] && times == a[..|draws|]
    && forall j :: 1 <= j <= |draws| ==> a[j] as real <= end
  }

  // A host that is through: sent were exactly the arrivals whose successor is not after the end.
  ghost predicate IsRetired(first: int, draws: seq<nat>, times: seq<int>, end: real) {
    var a := Arrivals(first, draws);
    && draws != [] && times == a[..|draws| - 1]
    && a[|draws|] as real > end
    && forall j :: 1 <= j < |draws| ==> a[j] as real <= end
  }

  // ---------- the merge ----------

  ghost predicate OneEntryEach(hosts: seq<Arrival>, nhost: nat) {
    && (forall i :: 0 <= i < |hosts| ==> hosts[i].1 < nhost)
    && forall i, j :: 0 <= i < j < |hosts| ==> hosts[i].1 != hosts[j].1
  }

  ghost predicate HostOk(firsts: seq<nat>, hosts: seq<Arrival>, log: seq<(nat, nat)>, flows: seq<Flow>,
                         h: nat, end: real)
    requires h < |firsts|
  {
    var (first, draws, times) := (BASE_T + firsts[h], DrawsOf(log, h), TimesOf(flows, h));
    && (forall i :: 0 <= i < |hosts| && hosts[i].1 == h ==> IsWaiting(first, draws, times, hosts[i].0, end))
    && ((forall i :: 0 <= i < |hosts| ==> hosts[i].1 != h) ==> IsRetired(first, draws, times, end))
  }

  ghost predicate FlowOk(f: Flow, nhost: nat, end: real) {
    f.src < nhost && f.dst < nhost && f.src != f.dst && f.size >= 1 && BASE_T <= f.t && f.t as real <= end
  }

  // By time, and flows of the same time by source.
  ghost predicate InTimeOrder(flows: seq<Flow>) {
    forall i, j :: 0 <= i < j < |flows| ==>
      flows[i].t < flows[j].t || (flows[i].t == flows[j].t && flows[i].src <= flows[j].src)
  }

  // Nobody waits for a time before the last flow, and at its time only hosts from its source on.
  ghost predicate NotBehind(hosts: seq<Arrival>, flows: seq<Flow>) {
    forall i :: 0 <= i < |hosts| ==>
      && BASE_T <= hosts[i].0
      && (flows != [] ==>
            var f := flows[|flows| - 1];
            f.t < hosts[i].0 || (f.t == hosts[i].0 && f.src <= hosts[i].1))
  }

  ghost predicate Merging(firsts: seq<nat>, hosts: seq<Arrival>, log: seq<(nat, nat)>, flows: seq<Flow>, end: real) {
    && OneEntryEach(hosts, |firsts|)
    && (forall h :: 0 <= h < |firsts| ==> HostOk(firsts, hosts, log, flows, h, end))
    && (forall i :: 0 <= i < |flows| ==> FlowOk(flows[i], |firsts|, end))
    && InTimeOrder(flows) && NotBehind(hosts, flows)
  }

  lemma OwnChanged(log: seq<(nat, nat)>, flows: seq<Flow>, src: nat, inter: nat, f: Flow)
    requires f.src == src
    ensures DrawsOf(log + [(src, inter)], src) == DrawsOf(log, src) + [inter]
    ensures TimesOf(flows + [f], src) == TimesOf(flows, src) + [f.t]
  {
    assert (log + [(src, inter)])[..|log|] == log;
    assert (flows + [f])[..|flows|] == flows;
  }

  lemma OtherUnchanged(log: seq<(nat, nat)>, flows: seq<Flow>, src: nat, inter: nat, f: Flow, h: nat)
    requires f.src == src && h != src
    ensures DrawsOf(log + [(src, inter)], h) == DrawsOf(log, h)
    ensures TimesOf(flows + [f], h) == TimesOf(flows, h)
  {
    assert (log + [(src, inter)])[..|log|] == log;
    assert (flows + [f])[..|flows|] == flows;
  }

  lemma NextArrival(first: int, draws: seq<nat>, inter: nat)
    ensures var a := Arrivals(first, draws); Arrivals(first, draws + [inter]) == a + [a[|draws|] + inter]
  {
    assert (draws + [inter])[..|draws|] == draws;
  }

  lemma SameFor(firsts: seq<nat>, hosts: seq<Arrival>, hosts': seq<Arrival>,
                log: seq<(nat, nat)>, log': seq<(nat, nat)>,
                flows: seq<Flow>, flows': seq<Flow>, h: nat, end: real)
    requires h < |firsts| && HostOk(firsts, hosts, log, flows, h, end)
    requires DrawsOf(log', h) == DrawsOf(log, h) && TimesOf(flows', h) == TimesOf(flows, h)
    requires forall i :: 0 <= i < |hosts'| && hosts'[i].1 == h ==> hosts'[i] in hosts
    requires forall i :: 0 <= i < |hosts| && hosts[i].1 == h ==> hosts[i] in hosts'
    ensures HostOk(firsts, hosts', log', flows', h, end)
  {
  }

  // The host at the head sends its flow and waits for its next arrival.
  lemma SentBySource(firsts: seq<nat>, hosts: seq<Arrival>, log: seq<(nat, nat)>, flows: seq<Flow>, end: real,
                     k: nat, inter: nat, f: Flow)
    requires OneEntryEach(hosts, |firsts|) && k < |hosts|
    requires f.src == hosts[k].1 && f.t == hosts[k].0 && (f.t + inter) as real <= end
    requires HostOk(firsts, hosts, log, flows, f.src, end)
    ensures HostOk(firsts, hosts[k := (f.t + inter, f.src)], log + [(f.src, inter)], flows + [f], f.src, end)
  {
    hide *;
    var a := (f.t + inter, f.src);
    OneEntryStays(hosts, |firsts|, k, a);
    IsWaitingAt(firsts, hosts, log, flows, end, k, f.t, f.src);
    WaitsOn(firsts, log, flows, end, inter, f);
    OnlyWaits(firsts, hosts[k := a], log + [(f.src, inter)], flows + [f], end, k, a.0, a.1);
  }

  // After its flow and one more draw, the source waits for its next arrival.
  lemma WaitsOn(firsts: seq<nat>, log: seq<(nat, nat)>, flows: seq<Flow>, end: real, inter: nat, f: Flow)
    requires f.src < |firsts| && (f.t + inter) as real <= end
    requires IsWaiting(BASE_T + firsts[f.src], DrawsOf(log, f.src), TimesOf(flows, f.src), f.t, end)
    ensures IsWaiting(BASE_T + firsts[f.src], DrawsOf(log + [(f.src, inter)], f.src), TimesOf(flows + [f], f.src),
                      f.t + inter, end)
  {
    hide *;
    OwnChanged(log, flows, f.src, inter, f);
    WaitsForNext(BASE_T + firsts[f.src], DrawsOf(log, f.src), TimesOf(flows, f.src), f.t, end, inter);
  }

  ghost predicate OnlyEntry(hosts: seq<Arrival>, k: nat)
    requires k < |hosts|
  {
    forall i :: 0 <= i < |hosts| && hosts[i].1 == hosts[k].1 ==> i == k
  }

  lemma OneEntryStays(hosts: seq<Arrival>, nhost: nat, k: nat, a: Arrival)
    requires OneEntryEach(hosts, nhost) && k < |hosts| && a.1 == hosts[k].1
    ensures a.1 < nhost && OnlyEntry(hosts[k := a], k)
  {
  }

  lemma IsWaitingAt(firsts: seq<nat>, hosts: seq<Arrival>, log: seq<(nat, nat)>, flows: seq<Flow>, end: real,
                    k: nat, t: int, h: nat)
    requires k < |hosts| && hosts[k] == (t, h) && h < |firsts| && HostOk(firsts, hosts, log, flows, h, end)
    ensures IsWaiting(BASE_T + firsts[h], DrawsOf(log, h), TimesOf(flows, h), t, end)
  {
    hide DrawsOf, TimesOf, IsWaiting, IsRetired;
  }

  // A host that waits at just one place is as it should be.
  lemma OnlyWaits(firsts: seq<nat>, hosts: seq<Arrival>, log: seq<(nat, nat)>, flows: seq<Flow>, end: real,
                  k: nat, t: int, h: nat)
    requires k < |hosts| && hosts[k] == (t, h) && h < |firsts| && OnlyEntry(hosts, k)
    requires IsWaiting(BASE_T + firsts[h], DrawsOf(log, h), TimesOf(flows, h), t, end)
    ensures HostOk(firsts, hosts, log, flows, h, end)
  {
    hide DrawsOf, TimesOf, IsWaiting, IsRetired;
  }

  lemma WaitsForNext(first: int, draws: seq<nat>, times: seq<int>, t: int, end: real, inter: nat)
    requires IsWaiting(first, draws, times, t, end) && (t + inter) as real <= end
    ensures IsWaiting(first, draws + [inter], times + [t], t + inter, end)
  {
    NextArrival(first, draws, inter);
    hide Arrivals;
  }

  lemma SentByOther(firsts: seq<nat>, hosts: seq<Arrival>, log: seq<(nat, nat)>, flows: seq<Flow>, end: real,
                    k: nat, inter: nat, f: Flow, h: nat)
    requires k < |hosts| && f.src == hosts[k].1 && h != f.src && h < |firsts|
    requires HostOk(firsts, hosts, log, flows, h, end)
    ensures HostOk(firsts, hosts[k := (f.t + inter, f.src)], log + [(f.src, inter)], flows + [f], h, end)
  {
    hide HostOk;
    var hosts' := hosts[k := (f.t + inter, f.src)];
    OtherUnchanged(log, flows, f.src, inter, f, h);
    forall i | 0 <= i < |hosts| && hosts[i].1 == h
      ensures hosts[i] in hosts'
    {
      assert hosts'[i] == hosts[i];
    }
    SameFor(firsts, hosts, hosts', log, log + [(f.src, inter)], flows, flows + [f], h, end);
  }

  lemma SentInOrder(hosts: seq<Arrival>, flows: seq<Flow>, nhost: nat, k: nat, inter: nat, f: Flow)
    requires OneEntryEach(hosts, nhost) && InTimeOrder(flows) && NotBehind(hosts, flows) && IsHead(hosts, k)
    requires f.src == hosts[k].1 && f.t == hosts[k].0
    ensures OneEntryEach(hosts[k := (f.t + inter, f.src)], nhost)
    ensures InTimeOrder(flows + [f]) && NotBehind(hosts[k := (f.t + inter, f.src)], flows + [f])
    ensures BASE_T <= f.t
  {
  }

  lemma Sent(firsts: seq<nat>, hosts: seq<Arrival>, log: seq<(nat, nat)>, flows: seq<Flow>, end: real,
             k: nat, inter: nat, f: Flow)
    requires Merging(firsts, hosts, log, flows, end) && IsHead(hosts, k)
    requires f.src == hosts[k].1 && f.t == hosts[k].0 && f.dst < |firsts| && f.dst != f.src && f.size >= 1
    requires (f.t + inter) as real <= end
    ensures Merging(firsts, hosts[k := (f.t + inter, f.src)], log + [(f.src, inter)], flows + [f], end)
  {
    SentInOrder(hosts, flows, |firsts|, k, inter, f);
    hide HostOk, InTimeOrder, NotBehind;
    assert f.src < |firsts|;
    var hosts', log', flows' := hosts[k := (f.t + inter, f.src)], log + [(f.src, inter)], flows + [f];
    forall h | 0 <= h < |firsts|
      ensures HostOk(firsts, hosts', log', flows', h, end)
    {
      if h == f.src {
        SentBySource(firsts, hosts, log, flows, end, k, inter, f);
      } else {
        SentByOther(firsts, hosts, log, flows, end, k, inter, f, h);
      }
    }
    hide OneEntryEach;
    assert FlowOk(f, |firsts|, end);
  }

  // The host at the head would arrive after the end: it is retired.
  lemma RetiredSource(firsts: seq<nat>, hosts: seq<Arrival>, log: seq<(nat, nat)>, flows: seq<Flow>, end: real,
                      k: nat, inter: nat)
    requires OneEntryEach(hosts, |firsts|) && k < |hosts|
    requires (hosts[k].0 + inter) as real > end
    requires HostOk(firsts, hosts, log, flows, hosts[k].1, end)
    ensures HostOk(firsts, hosts[..k] + hosts[k + 1..], log + [(hosts[k].1, inter)], flows, hosts[k].1, end)
  {
    hide DrawsOf, TimesOf, IsWaiting, IsRetired;
    var (t, src) := hosts[k];
    OwnChanged(log, flows, src, inter, Flow(src, src, 0, 0));
    var first, draws, times := BASE_T + firsts[src], DrawsOf(log, src), TimesOf(flows, src);
    IsWaitingAt(firsts, hosts, log, flows, end, k, t, src);
    RetiresNext(first, draws, times, t, end, inter);
  }

  lemma RetiresNext(first: int, draws: seq<nat>, times: seq<int>, t: int, end: real, inter: nat)
    requires IsWaiting(first, draws, times, t, end) && (t + inter) as real > end
    ensures IsRetired(first, draws + [inter], times, end)
  {
    NextArrival(first, draws, inter);
    hide Arrivals;
  }

  lemma RetiredOther(firsts: seq<nat>, hosts: seq<Arrival>, log: seq<(nat, nat)>, flows: seq<Flow>, end: real,
                     k: nat, inter: nat, h: nat)
    requires k < |hosts| && h != hosts[k].1 && h < |firsts|
    requires HostOk(firsts, hosts, log, flows, h, end)
    ensures HostOk(firsts, hosts[..k] + hosts[k + 1..], log + [(hosts[k].1, inter)], flows, h, end)
  {
    hide HostOk;
    var hosts', src := hosts[..k] + hosts[k + 1..], hosts[k].1;
    OtherUnchanged(log, flows, src, inter, Flow(src, src, 0, 0), h);
    forall i | 0 <= i < |hosts| && hosts[i].1 == h
      ensures hosts[i] in hosts'
    {
      assert hosts'[if i < k then i else i - 1] == hosts[i];
    }
    SameFor(firsts, hosts, hosts', log, log + [(src, inter)], flows, flows, h, end);
  }

  lemma Retired(firsts: seq<nat>, hosts: seq<Arrival>, log: seq<(nat, nat)>, flows: seq<Flow>, end: real,
                k: nat, inter: nat)
    requires Merging(firsts, hosts, log, flows, end) && IsHead(hosts, k)
    requires (hosts[k].0 + inter) as real > end
    ensures Merging(firsts, hosts[..k] + hosts[k + 1..], log + [(hosts[k].1, inter)], flows, end)
  {
    hide HostOk, InTimeOrder, FlowOk;
    var hosts', log' := hosts[..k] + hosts[k + 1..], log + [(hosts[k].1, inter)];
    forall h | 0 <= h < |firsts|
      ensures HostOk(firsts, hosts', log', flows, h, end)
    {
      if h == hosts[k].1 {
        RetiredSource(firsts, hosts, log, flows, end, k, inter);
      } else {
        RetiredOther(firsts, hosts, log, flows, end, k, inter, h);
      }
    }
  }

  // ---------- destinations and sizes ----------

  // In each round the first drawn destination that is not the source is picked, from where the
  // round before has left off.
  ghost predicate Picked(dsts: seq<nat>, log: seq<(nat, nat)>, picks: seq<nat>) {
    && |picks| == |log|
    && (log == [] ||
        var n := |log| - 1;
        && Picked(dsts, log[..n], picks[..n])
        && LeftOff(picks[..n]) <= picks[n] < |dsts| && dsts[picks[n]] != log[n].0
        && forall m :: LeftOff(picks[..n]) <= m < picks[n] ==> dsts[m] == log[n].0)
  }

  ghost function LeftOff(picks: seq<nat>): nat {
    if picks == [] then 0 else picks[|picks| - 1] + 1
  }

  // Each flow is sent in a round of its source, to the destination picked there, in the order of
  // the rounds, and with the next size drawn or 1.
  ghost predicate SentInRounds(dsts: seq<nat>, sizes: nat -> int, log: seq<(nat, nat)>, picks: seq<nat>,
                               flows: seq<Flow>, rounds: seq<nat>) {
    && |rounds| == |flows| && |picks| == |log|
    && (forall i :: 0 <= i < |flows| ==>
          && rounds[i] < |log| && flows[i].src == log[rounds[i]].0
          && picks[rounds[i]] < |dsts| && flows[i].dst == dsts[picks[rounds[i]]]
          && flows[i].size == if sizes(i) <= 0 then 1 else sizes(i))
    && forall i, j :: 0 <= i < j < |rounds| ==> rounds[i] < rounds[j]
  }

  lemma OneMorePick(dsts: seq<nat>, log: seq<(nat, nat)>, picks: seq<nat>, d: (nat, nat), pick: nat)
    requires Picked(dsts, log, picks)
    requires LeftOff(picks) <= pick < |dsts| && dsts[pick] != d.0
    requires forall m :: LeftOff(picks) <= m < pick ==> dsts[m] == d.0
    ensures Picked(dsts, log + [d], picks + [pick]) && LeftOff(picks + [pick]) == pick + 1
  {
    assert (log + [d])[..|log|] == log && (picks + [pick])[..|picks|] == picks;
  }

  lemma RoundWithoutFlow(dsts: seq<nat>, sizes: nat -> int, log: seq<(nat, nat)>, picks: seq<nat>,
                         flows: seq<Flow>, rounds: seq<nat>, d: (nat, nat), pick: nat)
    requires SentInRounds(dsts, sizes, log, picks, flows, rounds)
    ensures SentInRounds(dsts, sizes, log + [d], picks + [pick], flows, rounds)
  {
  }

  lemma RoundWithFlow(dsts: seq<nat>, sizes: nat -> int, log: seq<(nat, nat)>, picks: seq<nat>,
                      flows: seq<Flow>, rounds: seq<nat>, d: (nat, nat), pick: nat, f: Flow)
    requires SentInRounds(dsts, sizes, log, picks, flows, rounds)
    requires pick < |dsts| && f.src == d.0 && f.dst == dsts[pick]
    requires f.size == if sizes(|flows|) <= 0 then 1 else sizes(|flows|)
    ensures SentInRounds(dsts, sizes, log + [d], picks + [pick], flows + [f], rounds + [|log|])
  {
  }

  // What has been picked and sent in the rounds so far, with the first e destinations used up.
  ghost predicate Traced(dsts: seq<nat>, sizes: nat -> int, log: seq<(nat, nat)>, picks: seq<nat>,
                         flows: seq<Flow>, rounds: seq<nat>, e: nat) {
    Picked(dsts, log, picks) && SentInRounds(dsts, sizes, log, picks, flows, rounds) && LeftOff(picks) == e
  }

  lemma Recorded(dsts: seq<nat>, sizes: nat -> int, log: seq<(nat, nat)>, picks: seq<nat>, flows: seq<Flow>,
                 rounds: seq<nat>, d: (nat, nat), e: nat, next: nat, t: int, flows': seq<Flow>)
    returns (picks': seq<nat>, rounds': seq<nat>)
    requires Traced(dsts, sizes, log, picks, flows, rounds, e)
    requires e < next <= |dsts| && dsts[next - 1] != d.0 && forall m :: e <= m < next - 1 ==> dsts[m] == d.0
    requires flows' == flows ||
      flows' == flows + [Flow(d.0, dsts[next - 1], if sizes(|flows|) <= 0 then 1 else sizes(|flows|), t)]
    ensures Traced(dsts, sizes, log + [d], picks', flows', rounds', next)
  {
    picks', rounds' := picks + [next - 1], rounds;
    OneMorePick(dsts, log, picks, d, next - 1);
    if flows' == flows {
      RoundWithoutFlow(dsts, sizes, log, picks, flows, rounds, d, next - 1);
    } else {
      RoundWithFlow(dsts, sizes, log, picks, flows, rounds, d, next - 1, flows'[|flows|]);
      rounds' := rounds + [|log|];
    }
  }

  // ---------- enough draws ----------

  // An upper bound on the number of draws that the waiting hosts still need if every draw is
  // positive: one for each time unit that is left, and one to retire.
  ghost function Budget(hosts: seq<Arrival>, last: int): nat {
    if hosts == [] then 0 else
      var t := hosts[|hosts| - 1].0;
      Budget(hosts[..|hosts| - 1], last) + 1 + if t <= last then last - t + 1 else 0
  }

  lemma {:induction false} BudgetReplaced(hosts: seq<Arrival>, last: int, k: nat, a: Arrival)
    requires k < |hosts| && hosts[k].0 < a.0 <= last
    ensures Budget(hosts[k := a], last) < Budget(hosts, last)
  {
    var n := |hosts| - 1;
    if k < n {
      assert hosts[k := a][..n] == hosts[..n][k := a];
      BudgetReplaced(hosts[..n], last, k, a);
    } else {
      assert hosts[k := a][..n] == hosts[..n];
    }
  }

  lemma {:induction false} BudgetRemoved(hosts: seq<Arrival>, last: int, k: nat)
    requires k < |hosts|
    ensures Budget(hosts[..k] + hosts[k + 1..], last) < Budget(hosts, last)
  {
    var n := |hosts| - 1;
    var shorter := hosts[..k] + hosts[k + 1..];
    if k < n {
      BudgetRemoved(hosts[..n], last, k);
      assert shorter[..n - 1] == hosts[..n][..k] + hosts[..n][k + 1..];
      assert shorter[n - 1] == hosts[n];
    } else {
      assert shorter == hosts[..n];
    }
  }

  // How many of the draws are not zero.
  ghost function Positives(draws: seq<nat>): nat {
    if draws == [] then 0 else
      Positives(draws[..|draws| - 1]) + if draws[|draws| - 1] > 0 then 1 else 0
  }

  // Draw destinations until one is not the source; none is found when the draws are used up.
  method DrawDestination(dsts: seq<nat>, from: nat, src: nat) returns (found: bool, dst: nat, next: nat)
    requires from <= |dsts|
    ensures from <= next <= |dsts| && (forall i :: from <= i < next - 1 ==> dsts[i] == src)
    ensures found ==> from < next && dst == dsts[next - 1] && dst != src
    ensures !found ==> next == |dsts| && forall i :: from <= i < |dsts| ==> dsts[i] == src
  {
    next := from;
    while next < |dsts|
      invariant from <= next <= |dsts| && forall i :: from <= i < next ==> dsts[i] == src
    {
      dst := dsts[next];
      next := next + 1;
      if dst != src {
        return true, dst, next;
      }
    }
    return false, src, next;
  }

  // The host at the head sends a flow, unless its next arrival is after the end.
  method SendOrRetire(ghost firsts: seq<nat>, time: real, hosts0: seq<Arrival>, flows0: seq<Flow>, nFlow0: nat,
                      ghost log: seq<(nat, nat)>, k: nat, inter: nat, dst: nat, nextSize: int)
    returns (flows: seq<Flow>, nFlow: nat, hosts: seq<Arrival>)
    requires IsHead(hosts0, k) && dst < |firsts| && dst != hosts0[k].1 && nFlow0 == |flows0|
    requires Merging(firsts, hosts0, log, flows0, EndOf(time))
    ensures Merging(firsts, hosts, log + [(hosts0[k].1, inter)], flows, EndOf(time)) && nFlow == |flows|
    ensures var last := LastTime(EndOf(time));
      Budget(hosts, last) + (if inter > 0 then 1 else 0) <= Budget(hosts0, last)
    ensures flows == flows0 ||
      flows == flows0 + [Flow(hosts0[k].1, dst, if nextSize <= 0 then 1 else nextSize, hosts0[k].0)]
  {
    hide Merging, Budget;
    ghost var end := EndOf(time);
    flows, nFlow, hosts := flows0, nFlow0, hosts0;
    var (t, src) := hosts[k];
    if (t + inter) as real > time + BASE_T as real {
      Retired(firsts, hosts, log, flows, end, k, inter);
      BudgetRemoved(hosts, LastTime(end), k);
      hosts := hosts[..k] + hosts[k + 1..];
    } else {
      var size := nextSize;
      if size <= 0 {
        size := 1;
      }
      nFlow := nFlow + 1;
      Sent(firsts, hosts, log, flows, end, k, inter, Flow(src, dst, size, t));
      flows := flows + [Flow(src, dst, size, t)];
      BudgetDrawn(hosts, LastTime(end), k, inter);
      hosts := hosts[k := (t + inter, src)];
    }
  }

  predicate AreHosts(dsts: seq<nat>, nhost: nat) {
    forall i :: 0 <= i < |dsts| ==> dsts[i] < nhost
  }

  // The times logged are the first of those drawn.
  ghost predicate DrawnInOrder(log: seq<(nat, nat)>, draws: seq<nat>) {
    |log| <= |draws| && forall i :: 0 <= i < |log| ==> log[i].1 == draws[i]
  }

  // Everything about the rounds so far: the merge, the trace, the draws used up, and the bound on
  // the draws that the hosts still need.
  ghost predicate Underway(firsts: seq<nat>, end: real, draws: seq<nat>, dsts: seq<nat>, sizes: nat -> int,
                           hosts: seq<Arrival>, flows: seq<Flow>, used: nat,
                           log: seq<(nat, nat)>, picks: seq<nat>, rounds: seq<nat>) {
    && Merging(firsts, hosts, log, flows, end)
    && Traced(dsts, sizes, log, picks, flows, rounds, used)
    && DrawnInOrder(log, draws)
    && Budget(hosts, LastTime(end)) + Positives(draws[..|log|]) <= Budget(Starts(firsts), LastTime(end))
    && (|firsts| == 1 ==> |log| == |flows| == 0 && hosts != [])
  }

  // One round: the host at the head draws the time to its next arrival and a destination.
  method Round(ghost firsts: seq<nat>, time: real, draws: seq<nat>, dsts: seq<nat>, sizes: nat -> int,
               d: nat, hosts0: seq<Arrival>, flows0: seq<Flow>, nFlow0: nat, used0: nat,
               ghost log0: seq<(nat, nat)>, ghost picks0: seq<nat>, ghost rounds0: seq<nat>)
    returns (found: bool, hosts: seq<Arrival>, flows: seq<Flow>, nFlow: nat, used: nat,
             ghost log: seq<(nat, nat)>, ghost picks: seq<nat>, ghost rounds: seq<nat>)
    requires AreHosts(dsts, |firsts|)
    requires hosts0 != [] && d == |log0| < |draws| && nFlow0 == |flows0| && used0 <= |dsts|
    requires Underway(firsts, EndOf(time), draws, dsts, sizes, hosts0, flows0, used0, log0, picks0, rounds0)
    ensures Underway(firsts, EndOf(time), draws, dsts, sizes, hosts, flows, used, log, picks, rounds)
    ensures nFlow == |flows| && |log| == d + (if found then 1 else 0) && used <= |dsts|
  {
    hosts, flows, nFlow, used, log, picks, rounds := hosts0, flows0, nFlow0, used0, log0, picks0, rounds0;
    hide Merging, Traced, Budget, Positives, Starts;
    var k := Head(hosts);
    HeadInside(firsts, hosts, log, flows, EndOf(time), k);
    var (t, src) := hosts[k];
    var inter := draws[d];
    var dst, next;
    found, dst, next := DrawDestination(dsts, used, src);
    if !found {
      return;
    }
    OneMoreDraw(draws, d);
    flows, nFlow, hosts := SendOrRetire(firsts, time, hosts, flows, nFlow, log, k, inter, dst, sizes(nFlow));
    picks, rounds := Recorded(dsts, sizes, log, picks, flows0, rounds, (src, inter), used, next, t, flows);
    log := log + [(src, inter)];
    used := next;
  }

  // The merge itself, for given first arrivals and given draws of inter-arrival times, destinations
  // and sizes. It runs until no host is left, until the inter-arrival times are used up, or until a
  // search for a destination uses up the destinations. Once enough of the inter-arrival times were
  // not zero, no host is left.
  method GenerateFlows(firsts: seq<nat>, time: real, draws: seq<nat>, dsts: seq<nat>, sizes: nat -> int)
    returns (flows: seq<Flow>, nFlow: nat, hosts: seq<Arrival>, starved: bool, used: nat,
             ghost log: seq<(nat, nat)>, ghost picks: seq<nat>, ghost rounds: seq<nat>)
    requires AreHosts(dsts, |firsts|)
    ensures Merging(firsts, hosts, log, flows, EndOf(time))
    ensures nFlow == |flows|
    ensures Traced(dsts, sizes, log, picks, flows, rounds, used)
    ensures DrawnInOrder(log, draws)
    ensures hosts != [] && !starved ==> |log| == |draws|
    ensures !starved && Positives(draws) >= Budget(Starts(firsts), LastTime(EndOf(time))) ==> hosts == []
    ensures |firsts| == 1 ==> |flows| == |log| == 0 && (|draws| > 0 ==> starved)
  {
    ghost var end := EndOf(time);
    hosts := InitialHosts(firsts);
    flows, nFlow, used, log, starved, picks, rounds := [], 0, 0, [], false, [], [];
    UnderwayAtStart(firsts, end, draws, dsts, sizes);
    hide *;
    var d := 0;
    while hosts != [] && d < |draws|
      invariant d == |log| <= |draws| && nFlow == |flows| && used <= |dsts|
      invariant Underway(firsts, end, draws, dsts, sizes, hosts, flows, used, log, picks, rounds)
      decreases |draws| - d
    {
      var found;
      found, hosts, flows, nFlow, used, log, picks, rounds :=
        Round(firsts, time, draws, dsts, sizes, d, hosts, flows, nFlow, used, log, picks, rounds);
      if !found {
        starved := true;
        break;
      }
      d := d + 1;
    }
    SoFar(firsts, end, draws, dsts, sizes, hosts, flows, used, log, picks, rounds);
  }

  lemma UnderwayAtStart(firsts: seq<nat>, end: real, draws: seq<nat>, dsts: seq<nat>, sizes: nat -> int)
    ensures Underway(firsts, end, draws, dsts, sizes, Starts(firsts), [], 0, [], [], [])
  {
    StartMerging(firsts, end);
    StartsAt(firsts);
    hide Merging, Starts, Budget;
  }

  // What is known of the rounds at any time.
  lemma SoFar(firsts: seq<nat>, end: real, draws: seq<nat>, dsts: seq<nat>, sizes: nat -> int,
              hosts: seq<Arrival>, flows: seq<Flow>, used: nat,
              log: seq<(nat, nat)>, picks: seq<nat>, rounds: seq<nat>)
    requires Underway(firsts, end, draws, dsts, sizes, hosts, flows, used, log, picks, rounds)
    ensures Merging(firsts, hosts, log, flows, end) && Traced(dsts, sizes, log, picks, flows, rounds, used)
    ensures DrawnInOrder(log, draws)
    ensures |log| == |draws| && Positives(draws) >= Budget(Starts(firsts), LastTime(end)) ==> hosts == []
    ensures |firsts| == 1 ==> |flows| == |log| == 0 && hosts != []
  {
    assert draws[..|draws|] == draws;
    if hosts != [] {
      BudgetPositive(hosts, LastTime(end));
    }
    hide Merging, Traced, Starts, Budget;
  }

  lemma OneMoreDraw(draws: seq<nat>, d: nat)
    requires d < |draws|
    ensures Positives(draws[..d + 1]) == Positives(draws[..d]) + if draws[d] > 0 then 1 else 0
  {
    assert draws[..d + 1][..d] == draws[..d];
  }

  // A draw of zero leaves the hosts as they are.
  lemma BudgetDrawn(hosts: seq<Arrival>, last: int, k: nat, inter: nat)
    requires k < |hosts| && hosts[k].0 + inter <= last
    ensures var later := (hosts[k].0 + inter, hosts[k].1);
      Budget(hosts[k := later], last) + (if inter > 0 then 1 else 0) <= Budget(hosts, last)
  {
    if inter > 0 {
      BudgetReplaced(hosts, last, k, (hosts[k].0 + inter, hosts[k].1));
    } else {
      assert hosts[k := (hosts[k].0 + inter, hosts[k].1)] == hosts;
    }
  }

  lemma BudgetPositive(hosts: seq<Arrival>, last: int)
    requires hosts != []
    ensures Budget(hosts, last) > 0
  {
  }

  method InitialHosts(firsts: seq<nat>) returns (hosts: seq<Arrival>)
    ensures hosts == Starts(firsts)
  {
    hosts := [];
    for i := 0 to |firsts|
      invariant hosts == Starts(firsts[..i])
    {
      assert firsts[..i + 1][..i] == firsts[..i];
      hosts := hosts + [(BASE_T + firsts[i], i)];
    }
    assert firsts[..|firsts|] == firsts;
  }

  // Each host with its first arrival.
  ghost function Starts(firsts: seq<nat>): seq<Arrival> {
    if firsts == [] then [] else
      Starts(firsts[..|firsts| - 1]) + [(BASE_T + firsts[|firsts| - 1], |firsts| - 1)]
  }

  lemma {:induction false} StartsAt(firsts: seq<nat>)
    ensures |Starts(firsts)| == |firsts|
    ensures forall i :: 0 <= i < |firsts| ==> Starts(firsts)[i] == (BASE_T + firsts[i], i)
  {
    if firsts != [] {
      StartsAt(firsts[..|firsts| - 1]);
    }
  }

  lemma StartMerging(firsts: seq<nat>, end: real)
    ensures Merging(firsts, Starts(firsts), [], [], end)
  {
    StartsAt(firsts);
    forall h | 0 <= h < |firsts|
      ensures HostOk(firsts, Starts(firsts), [], [], h, end)
    {
      assert Starts(firsts)[h].1 == h;
    }
  }

  lemma HeadInside(firsts: seq<nat>, hosts: seq<Arrival>, log: seq<(nat, nat)>, flows: seq<Flow>, end: real, k: nat)
    requires IsHead(hosts, k) && Merging(firsts, hosts, log, flows, end)
    ensures k < |hosts| && hosts[k].1 < |firsts|
  {
  }

  ghost function Total(draws: seq<nat>): nat {
    if draws == [] then 0 else Total(draws[..|draws| - 1]) + draws[|draws| - 1]
  }

  lemma {:induction false} LastArrival(first: int, draws: seq<nat>)
    ensures Arrivals(first, draws)[|draws|] == first + Total(draws)
  {
    if draws != [] {
      LastArrival(first, draws[..|draws| - 1]);
    }
  }

  ghost predicate Gone(hosts: seq<Arrival>, h: nat) {
    forall i :: 0 <= i < |hosts| ==> hosts[i].1 != h
  }

  // Whatever is drawn, a host has retired exactly if it has drawn and its draws lead beyond the end.
  lemma RetiredIffBeyond(firsts: seq<nat>, hosts: seq<Arrival>, log: seq<(nat, nat)>, flows: seq<Flow>,
                         h: nat, end: real)
    requires h < |firsts| && HostOk(firsts, hosts, log, flows, h, end)
    ensures Gone(hosts, h) <==>
      DrawsOf(log, h) != [] && (BASE_T + firsts[h] + Total(DrawsOf(log, h))) as real > end
  {
    LastArrival(BASE_T + firsts[h], DrawsOf(log, h));
    hide Arrivals, DrawsOf, TimesOf;
    if !Gone(hosts, h) {
      var i :| 0 <= i < |hosts| && hosts[i].1 == h;
      assert IsWaiting(BASE_T + firsts[h], DrawsOf(log, h), TimesOf(flows, h), hosts[i].0, end);
    }
  }

  // So draws of zero, which truncation makes possible, never retire a host that starts in time.
  lemma ZerosNeverRetire(firsts: seq<nat>, hosts: seq<Arrival>, log: seq<(nat, nat)>, flows: seq<Flow>,
                         h: nat, end: real)
    requires h < |firsts| && HostOk(firsts, hosts, log, flows, h, end)
    requires (BASE_T + firsts[h]) as real <= end && forall i :: 0 <= i < |DrawsOf(log, h)| ==> DrawsOf(log, h)[i] == 0
    ensures !Gone(hosts, h)
  {
    RetiredIffBeyond(firsts, hosts, log, flows, h, end);
    TotalOfZeros(DrawsOf(log, h));
  }

  lemma {:induction false} TotalOfZeros(draws: seq<nat>)
    requires forall i :: 0 <= i < |draws| ==> draws[i] == 0
    ensures Total(draws) == 0
  {
    if draws != [] {
      TotalOfZeros(draws[..|draws| - 1]);
    }
  }
}
