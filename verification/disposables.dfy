/** The per-tag container of download subscriptions (an RxJava CompositeDisposable),
    reduced to what the registry relies on: its member subscriptions and whether the
    container itself has been disposed. Each operation returns the container after the
    call together with the subscriptions the call disposed. */
module Disposables {

  /** A download subscription, known by identity. */
  type SubId = nat

  datatype Composite = Composite(members: set<SubId>, disposed: bool)

  /** The result of one container operation. */
  datatype Effect = Effect(after: Composite, disposedNow: set<SubId>)

  /** A newly constructed, live, empty container. */
  const Fresh: Composite := Composite({}, false)

  /** add(d): a live container keeps d; a disposed one disposes d at once instead. */
  function Add(c: Composite, d: SubId): (e: Effect)
    ensures e.after.disposed == c.disposed
    ensures !c.disposed ==> e.after.members == c.members + {d} && e.disposedNow == {}
    ensures c.disposed ==> e.after == c && e.disposedNow == {d}
  {
    if c.disposed then Effect(c, {d})
    else Effect(Composite(c.members + {d}, false), {})
  }

  /** remove(d): when d is a member it leaves the container and is disposed. */
  function Remove(c: Composite, d: SubId): (e: Effect)
    ensures e.after.disposed == c.disposed
    ensures e.after.members == c.members - {d} && e.disposedNow == c.members * {d}
  {
    if d in c.members then Effect(Composite(c.members - {d}, c.disposed), {d})
    else Effect(c, {})
  }

  /** dispose(): every member is disposed and the container refuses further members. */
  function Dispose(c: Composite): (e: Effect)
    ensures e.after.disposed
    ensures !c.disposed ==> e.after.members == {} && e.disposedNow == c.members
    ensures c.disposed ==> e == Effect(c, {})
  {
    if c.disposed then Effect(c, {})
    else Effect(Composite({}, true), c.members)
  }
}
