/** The tag registry of the HTTP layer (RequestManager). For every owner tag it keeps
    the Retrofit calls still in flight under that tag, in registration order, and one
    container of download subscriptions. Each operation is modelled as sequential and
    atomic, which is what the source's single lock per registry provides. */
module Registry {
  import opened Disposables

  /** An owner tag: conventionally a page's creation time rendered as a string. */
  type Tag = string

  /** A Retrofit call, known by identity. */
  type CallId = nat

  /** The call table: each tag's in-flight calls, in the order they were added. */
  type CallTable = map<Tag, seq<CallId>>

  /** The calls under t, the empty list when t has no entry. */
  function Calls(m: CallTable, t: Tag): seq<CallId> {
    if t in m then m[t] else []
  }

  /** No tag maps to an empty list: emptied entries are pruned. */
  ghost predicate Pruned(m: CallTable) {
    forall t :: t in m ==> m[t] != []
  }

  /** Every tag other than t has the same entry (or lack of one) in m and m'. */
  ghost predicate SameElsewhere(m: CallTable, m': CallTable, t: Tag) {
    forall u :: u != t ==> (u in m <==> u in m') && (u in m ==> m[u] == m'[u])
  }

  ghost predicate Distinct(s: seq<CallId>) {
    forall i, j :: 0 <= i < j < |s| ==> s[i] != s[j]
  }

  /** hasRequest: the tag has an entry holding at least one call. */
  predicate Live(m: CallTable, t: Tag) {
    t in m && |m[t]| > 0
  }

  lemma LiveIsPresence(m: CallTable, t: Tag)
    requires Pruned(m)
    ensures Live(m, t) <==> t in m
  {
  }

  /** addCall: c goes to the end of t's list, which is created when t is absent. */
  function Register(m: CallTable, t: Tag, c: CallId): (r: CallTable)
    ensures t in r && r[t] == Calls(m, t) + [c]
    ensures SameElsewhere(m, r, t)
    ensures Pruned(m) ==> Pruned(r)
  {
    if t in m then m[t := m[t] + [c]] else m[t := [c]]
  }

  /** The position of the first occurrence of c in s (|s| when there is none). */
  function IndexOf(s: seq<CallId>, c: CallId): (i: nat)
    ensures i <= |s|
    ensures i < |s| <==> c in s
    ensures i < |s| ==> s[i] == c
    ensures c !in s[..i]
  {
    if s == [] then 0
    else if s[0] == c then 0
    else
      var j := IndexOf(s[1..], c);
      assert s[..j + 1] == [s[0]] + s[1..][..j];
      j + 1
  }

  /** ArrayList.remove(Object): the first occurrence of c leaves the list, the others stay in order. */
  function RemoveFirst(s: seq<CallId>, c: CallId): (r: seq<CallId>)
    ensures c in s ==> r == s[..IndexOf(s, c)] + s[IndexOf(s, c) + 1..]
    ensures c !in s ==> r == s
  {
    if s == [] then []
    else if s[0] == c then s[1..]
    else
      if c in s[1..] then
        CutAfterHead(s, c);
        [s[0]] + RemoveFirst(s[1..], c)
      else
        [s[0]] + RemoveFirst(s[1..], c)
  }

  /** Cutting c out of the tail, behind a head other than c, cuts it out of the whole list. */
  lemma CutAfterHead(s: seq<CallId>, c: CallId)
    requires s != [] && s[0] != c && c in s[1..]
    ensures var j := IndexOf(s[1..], c);
            [s[0]] + (s[1..][..j] + s[1..][j + 1..]) == s[..IndexOf(s, c)] + s[IndexOf(s, c) + 1..]
  {
    var j := IndexOf(s[1..], c);
    assert IndexOf(s, c) == j + 1;
    assert s[..j + 1] == [s[0]] + s[1..][..j];
    assert s[j + 2..] == s[1..][j + 1..];
  }

  /** Removing one occurrence takes exactly one copy of c out of the list's multiset. */
  lemma {:induction false} RemoveFirstMultiset(s: seq<CallId>, c: CallId)
    ensures multiset(RemoveFirst(s, c)) == multiset(s) - multiset{c}
  {
    if s == [] {
    } else if s[0] == c {
      assert s == [c] + s[1..];
    } else {
      RemoveFirstMultiset(s[1..], c);
      assert s == [s[0]] + s[1..];
      SubtractOtherElement(multiset(s[1..]), s[0], c);
    }
  }

  /** Taking c out commutes with adding an element other than c. */
  lemma SubtractOtherElement(a: multiset<CallId>, x: CallId, c: CallId)
    requires x != c
    ensures multiset{x} + (a - multiset{c}) == (multiset{x} + a) - multiset{c}
  {
  }

  /** Taking out x and then b is taking out both at once. */
  lemma SubtractTwice(a: multiset<CallId>, x: multiset<CallId>, b: multiset<CallId>)
    ensures (a - x) - b == a - (x + b)
  {
  }

  /** removeCall: drop one occurrence of c from t's list and prune the entry once it is
      empty; an absent tag is left alone. */
  function Unregister(m: CallTable, t: Tag, c: CallId): (r: CallTable)
    ensures SameElsewhere(m, r, t)
    ensures t !in m ==> r == m
    ensures t in m ==> Calls(r, t) == RemoveFirst(m[t], c)
    ensures t in r ==> Calls(r, t) != []
    ensures Pruned(m) ==> Pruned(r)
  {
    if t in m then
      var rest := if c in m[t] then RemoveFirst(m[t], c) else m[t];
      if |rest| == 0 then m - {t} else m[t := rest]
    else m
  }

  /** removeCall takes one copy of c out of t's calls, when there is one. */
  lemma UnregisterMultiset(m: CallTable, t: Tag, c: CallId)
    ensures multiset(Calls(Unregister(m, t, c), t)) == multiset(Calls(m, t)) - multiset{c}
  {
    var r := Unregister(m, t, c);
    if t in m {
      RemoveFirstMultiset(m[t], c);
      if c !in m[t] {
        assert multiset(m[t])[c] == 0;
      }
      if t !in r {
        assert multiset(Calls(r, t)) == multiset{};
      }
    }
  }

  /** addCall for each of cs in turn. */
  function RegisterAll(m: CallTable, t: Tag, cs: seq<CallId>): CallTable
    decreases |cs|
  {
    if cs == [] then m else RegisterAll(Register(m, t, cs[0]), t, cs[1..])
  }

  /** removeCall for each of ds in turn. */
  function UnregisterAll(m: CallTable, t: Tag, ds: seq<CallId>): CallTable
    decreases |ds|
  {
    if ds == [] then m else UnregisterAll(Unregister(m, t, ds[0]), t, ds[1..])
  }

  /** A sequence of addCalls adds exactly those calls under t. */
  lemma {:induction false} RegisterAllAdds(m: CallTable, t: Tag, cs: seq<CallId>)
    ensures multiset(Calls(RegisterAll(m, t, cs), t)) == multiset(Calls(m, t)) + multiset(cs)
    decreases |cs|
  {
    if cs != [] {
      var m1 := Register(m, t, cs[0]);
      var a, x, b := multiset(Calls(m, t)), multiset{cs[0]}, multiset(cs[1..]);
      assert multiset(Calls(m1, t)) == a + x by {
        assert Calls(m1, t) == Calls(m, t) + [cs[0]];
      }
      assert multiset(Calls(RegisterAll(m1, t, cs[1..]), t)) == (a + x) + b by {
        RegisterAllAdds(m1, t, cs[1..]);
      }
      assert multiset(cs) == x + b by {
        assert cs == [cs[0]] + cs[1..];
      }
    }
  }

  /** A sequence of addCalls under t keeps the table pruned and leaves other tags alone. */
  lemma {:induction false} RegisterAllFrame(m: CallTable, t: Tag, cs: seq<CallId>)
    requires Pruned(m)
    ensures Pruned(RegisterAll(m, t, cs))
    ensures SameElsewhere(m, RegisterAll(m, t, cs), t)
    decreases |cs|
  {
    if cs != [] {
      RegisterAllFrame(Register(m, t, cs[0]), t, cs[1..]);
    }
  }

  /** A sequence of removeCalls takes exactly those calls out from under t. */
  lemma {:induction false} UnregisterAllRemoves(m: CallTable, t: Tag, ds: seq<CallId>)
    ensures multiset(Calls(UnregisterAll(m, t, ds), t)) == multiset(Calls(m, t)) - multiset(ds)
    decreases |ds|
  {
    if ds != [] {
      var m1 := Unregister(m, t, ds[0]);
      var a, x, b := multiset(Calls(m, t)), multiset{ds[0]}, multiset(ds[1..]);
      assert multiset(Calls(m1, t)) == a - x by {
        UnregisterMultiset(m, t, ds[0]);
      }
      assert multiset(Calls(UnregisterAll(m1, t, ds[1..]), t)) == (a - x) - b by {
        UnregisterAllRemoves(m1, t, ds[1..]);
      }
      assert multiset(ds) == x + b by {
        assert ds == [ds[0]] + ds[1..];
      }
      SubtractTwice(a, x, b);
    }
  }

  /** A sequence of removeCalls under t keeps the table pruned and leaves other tags alone. */
  lemma {:induction false} UnregisterAllFrame(m: CallTable, t: Tag, ds: seq<CallId>)
    requires Pruned(m)
    ensures Pruned(UnregisterAll(m, t, ds))
    ensures SameElsewhere(m, UnregisterAll(m, t, ds), t)
    decreases |ds|
  {
    if ds != [] {
      UnregisterAllFrame(Unregister(m, t, ds[0]), t, ds[1..]);
    }
  }

  /** Registering c1..cn under a tag without an entry and then removing each of them,
      in any order, leaves no entry for the tag and every other tag as it was. */
  lemma RegisterThenRemoveAllLeavesNoEntry(m: CallTable, t: Tag, cs: seq<CallId>, ds: seq<CallId>)
    requires Pruned(m) && t !in m
    requires multiset(ds) == multiset(cs)
    ensures t !in UnregisterAll(RegisterAll(m, t, cs), t, ds)
    ensures SameElsewhere(m, UnregisterAll(RegisterAll(m, t, cs), t, ds), t)
  {
    var m1 := RegisterAll(m, t, cs);
    RegisterAllAdds(m, t, cs);
    RegisterAllFrame(m, t, cs);
    UnregisterAllRemoves(m1, t, ds);
    UnregisterAllFrame(m1, t, ds);
  }

  /** The cancel() calls issued by the loop of cancelRequestWithTag over calls, given the
      calls already cancelled (log): each call not yet cancelled, in list order, once. */
  function CancelOrder(log: seq<CallId>, calls: seq<CallId>): seq<CallId>
    decreases |calls|
  {
    if calls == [] then []
    else if calls[0] in log then CancelOrder(log, calls[1..])
    else [calls[0]] + CancelOrder(log + [calls[0]], calls[1..])
  }

  /** The cancelling loop cancels every listed call, only calls that were listed, never
      one that was already cancelled, and none twice. */
  lemma {:induction false} CancelOrderSound(log: seq<CallId>, calls: seq<CallId>)
    requires Distinct(log)
    ensures Distinct(log + CancelOrder(log, calls))
    ensures forall c :: c in calls ==> c in log + CancelOrder(log, calls)
    ensures forall c :: c in CancelOrder(log, calls) ==> c in calls && c !in log
    decreases |calls|
  {
    if calls != [] {
      var c0 := calls[0];
      if c0 in log {
        CancelOrderSound(log, calls[1..]);
      } else {
        var log' := log + [c0];
        assert Distinct(log') by {
          forall i, j | 0 <= i < j < |log'| ensures log'[i] != log'[j] {
            if j == |log| { assert log'[i] in log; }
          }
        }
        CancelOrderSound(log', calls[1..]);
        assert log + CancelOrder(log, calls) == log' + CancelOrder(log', calls[1..]);
      }
    }
  }

  /** One registry operation on the call table, as issued by any thread. */
  datatype TableOp = AddOp(tag: Tag, call: CallId) | RemoveOp(tag: Tag, call: CallId) | CancelOp(tag: Tag)

  function Step(m: CallTable, op: TableOp): CallTable {
    match op
    case AddOp(t, c) => Register(m, t, c)
    case RemoveOp(t, c) => Unregister(m, t, c)
    case CancelOp(t) => m - {t}
  }

  function Run(m: CallTable, ops: seq<TableOp>): CallTable
    decreases |ops|
  {
    if ops == [] then m else Run(Step(m, ops[0]), ops[1..])
  }

  /** Once a tag is not live, no interleaving of removals and cancellations on any tag,
      and of registrations on other tags, makes it live again. */
  lemma {:induction false} DeadTagStaysDead(m: CallTable, t: Tag, ops: seq<TableOp>)
    requires !Live(m, t)
    requires forall i :: 0 <= i < |ops| ==> !(ops[i].AddOp? && ops[i].tag == t)
    ensures !Live(Run(m, ops), t)
    decreases |ops|
  {
    if ops != [] {
      var m1 := Step(m, ops[0]);
      assert !Live(m1, t);
      DeadTagStaysDead(m1, t, ops[1..]);
    }
  }

  /** The registry singleton: the call table (mCallMap), the subscription containers
      (mDisposableMap), and the record of what has been cancelled or disposed. */
  class RequestManager {
    var calls: CallTable
    var subscriptions: map<Tag, Composite>
    /** Every cancel() issued on a call, in order. */
    var cancelLog: seq<CallId>
    /** Every subscription disposed so far. */
    var disposed: set<SubId>

    /** No call list is empty, no call was cancelled twice, and no container held by
        the registry has been disposed. */
    ghost predicate Valid()
      reads this
    {
      && Pruned(calls)
      && Distinct(cancelLog)
      && forall t :: t in subscriptions ==> !subscriptions[t].disposed
    }

    constructor ()
      ensures Valid()
      ensures calls == map[] && subscriptions == map[] && cancelLog == [] && disposed == {}
    {
      calls := map[];
      subscriptions := map[];
      cancelLog := [];
      disposed := {};
    }

    /** call.isCanceled */
    predicate IsCanceled(c: CallId)
      reads this
    {
      c in cancelLog
    }

    /** hasRequest(t): with the registry's invariant, the same as t having an entry. */
    function HasRequest(t: Tag): (r: bool)
      reads this
      ensures Valid() ==> (r <==> t in calls)
      ensures r ==> Calls(calls, t) != []
    {
      Live(calls, t)
    }

    /** addCall(t, c) */
    method AddCall(t: Tag, c: CallId)
      requires Valid()
      modifies this
      ensures Valid()
      ensures calls == Register(old(calls), t, c)
      ensures subscriptions == old(subscriptions) && cancelLog == old(cancelLog) && disposed == old(disposed)
    {
      if t in calls {
        calls := calls[t := calls[t] + [c]];
      } else {
        calls := calls[t := [c]];
      }
    }

    /** removeCall(t, c) */
    method RemoveCall(t: Tag, c: CallId)
      requires Valid()
      modifies this
      ensures Valid()
      ensures calls == Unregister(old(calls), t, c)
      ensures subscriptions == old(subscriptions) && cancelLog == old(cancelLog) && disposed == old(disposed)
    {
      if t in calls {
        var list := calls[t];
        if c in list {
          list := RemoveFirst(list, c);
        }
        if |list| == 0 {
          calls := calls - {t};
        } else {
          calls := calls[t := list];
        }
      }
    }

    /** cancelRequestWithTag(t): cancel each call under t that is not cancelled yet, drop
        t's call entry, dispose t's container and drop it as well. */
    method CancelRequestWithTag(t: Tag)
      requires Valid()
      modifies this
      ensures Valid()
      ensures calls == old(calls) - {t}
      ensures cancelLog == old(cancelLog) + CancelOrder(old(cancelLog), Calls(old(calls), t))
      ensures forall c :: c in Calls(old(calls), t) ==> IsCanceled(c)
      ensures forall c :: c in cancelLog && c !in Calls(old(calls), t) ==> c in old(cancelLog)
      ensures subscriptions == old(subscriptions) - {t}
      ensures disposed == old(disposed) + (if t in old(subscriptions) then old(subscriptions)[t].members else {})
      ensures !HasRequest(t) && t !in subscriptions
      ensures t !in old(calls) && t !in old(subscriptions) ==> unchanged(this)
    {
      CancelOrderSound(cancelLog, Calls(calls, t));
      if t in calls {
        var list := calls[t];
        if |list| > 0 {
          var i := 0;
          while i < |list|
            invariant 0 <= i <= |list|
            invariant calls == old(calls) && subscriptions == old(subscriptions) && disposed == old(disposed)
            invariant cancelLog + CancelOrder(cancelLog, list[i..])
                      == old(cancelLog) + CancelOrder(old(cancelLog), list)
          {
            assert list[i..] == [list[i]] + list[i + 1..];
            if list[i] !in cancelLog {
              cancelLog := cancelLog + [list[i]];
            }
            i := i + 1;
          }
          assert list[i..] == [];
          assert cancelLog == old(cancelLog) + CancelOrder(old(cancelLog), list);
        }
        assert Distinct(cancelLog);
        calls := calls - {t};
      }
      if t in subscriptions {
        var e := Dispose(subscriptions[t]);
        disposed := disposed + e.disposedNow;
        subscriptions := subscriptions - {t};
      }
    }

    /** addDisposable(t, d): the container for t is created when missing; d joins it. */
    method AddDisposable(t: Tag, d: SubId)
      requires Valid()
      modifies this
      ensures Valid()
      ensures t in subscriptions
      ensures subscriptions[t].members
              == (if t in old(subscriptions) then old(subscriptions)[t].members else {}) + {d}
      ensures forall u :: u != t ==> (u in subscriptions <==> u in old(subscriptions))
                                     && (u in subscriptions ==> subscriptions[u] == old(subscriptions)[u])
      ensures disposed == old(disposed)
      ensures calls == old(calls) && cancelLog == old(cancelLog)
    {
      var composite := if t in subscriptions then subscriptions[t] else Fresh;
      var e := Add(composite, d);
      subscriptions := subscriptions[t := e.after];
      disposed := disposed + e.disposedNow;
    }

    /** removeDisposable(t, d): d leaves t's container, if there is one, and is disposed;
        the entry itself stays, even when it becomes empty. */
    method RemoveDisposable(t: Tag, d: SubId)
      requires Valid()
      modifies this
      ensures Valid()
      ensures subscriptions.Keys == old(subscriptions).Keys
      ensures t in subscriptions ==> subscriptions[t].members == old(subscriptions)[t].members - {d}
      ensures forall u :: u in subscriptions && u != t ==> subscriptions[u] == old(subscriptions)[u]
      ensures disposed == old(disposed)
                          + (if t in old(subscriptions) && d in old(subscriptions)[t].members then {d} else {})
      ensures calls == old(calls) && cancelLog == old(cancelLog)
    {
      if t in subscriptions {
        var e := Remove(subscriptions[t], d);
        subscriptions := subscriptions[t := e.after];
        disposed := disposed + e.disposedNow;
      }
    }
  }
}
