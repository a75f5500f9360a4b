/**
 * The in-memory appointment store. Its state is the value held by a
 * behaviour subject: the array of appointments most recently published.
 * Publishing with `next` is recorded in a ghost log of snapshots, the
 * initial empty list included, in the order subscribers receive them.
 */
module AppointmentStore {
  import opened AppointmentModel
  import opened AppointmentList

  /** A fresh array holding `s`: the copy that a spread `[...]` or `filter` produces. */
  method NewArray(s: seq<Appointment>) returns (a: array<Appointment>)
    ensures fresh(a) && a[..] == s
  {
    a := new Appointment[|s|](i requires 0 <= i < |s| => s[i]);
  }

  class AppointmentService {
    /** The subject's current value. */
    var current: array<Appointment>
    /** Every snapshot published so far, each as it was when published. */
    ghost var log: seq<seq<Appointment>>

    /** The last published snapshot is what the current array holds. */
    ghost predicate Valid()
      reads this, current
    {
      |log| > 0 && log[|log| - 1] == current[..]
    }

    /** The current list of appointments. */
    ghost function Contents(): seq<Appointment>
      reads this, current
    {
      current[..]
    }

    /** The store starts with an empty list, which is its first snapshot. */
    constructor ()
      ensures Valid() && fresh(current)
      ensures Contents() == [] && log == [[]]
    {
      current := new Appointment[0];
      log := [[]];
    }

    /** What a new subscriber receives first: the last published snapshot. */
    method Snapshot() returns (s: seq<Appointment>)
      requires Valid()
      ensures s == Contents() && s == log[|log| - 1]
    {
      s := current[..];
    }

    /** Appends `a` to a fresh copy of the list and publishes it; no id check is made. */
    method AddAppointment(a: Appointment)
      requires Valid()
      modifies this
      ensures Valid() && fresh(current)
      ensures Contents() == old(Contents()) + [a]
      ensures log == old(log) + [Contents()]
      ensures UniqueIds(old(Contents())) ==>
                (UniqueIds(Contents()) <==> !HasId(old(Contents()), a.id))
    {
      if UniqueIds(current[..]) {
        AppendKeepsUnique(current[..], a);
      }
      var next := NewArray(current[..] + [a]);
      current := next;
      log := log + [next[..]];
    }

    /** Publishes a fresh list without the entries carrying `id`, even when there are none. */
    method DeleteAppointment(id: string)
      requires Valid()
      modifies this
      ensures Valid() && fresh(current)
      ensures Contents() == Without(old(Contents()), id)
      ensures log == old(log) + [Contents()]
      ensures UniqueIds(old(Contents())) ==> UniqueIds(Contents())
    {
      if UniqueIds(current[..]) {
        WithoutKeepsUnique(current[..], id);
      }
      var next := NewArray(Without(current[..], id));
      current := next;
      log := log + [next[..]];
    }

    /**
     * Overwrites, in the current array itself, the first entry carrying
     * `u`'s id, then publishes a fresh copy. When the id is absent nothing
     * changes and nothing is published. The array published before the call
     * is the one written into, so it too shows the update afterwards.
     */
    method UpdateAppointment(u: Appointment)
      requires Valid()
      modifies this, current
      ensures Valid()
      ensures Contents() == Updated(old(Contents()), u)
      ensures old(current)[..] == Contents()
      ensures HasId(old(Contents()), u.id) ==>
                fresh(current) && log == old(log) + [Contents()]
      ensures !HasId(old(Contents()), u.id) ==>
                current == old(current) && log == old(log)
      ensures UniqueIds(old(Contents())) ==> UniqueIds(Contents())
    {
      if UniqueIds(current[..]) {
        UpdatedKeepsUnique(current[..], u);
      }
      var cur := current;
      var index := FindIndex(cur[..], u.id);
      if index != -1 {
        cur[index] := u;
        var next := NewArray(cur[..]);
        current := next;
        log := log + [next[..]];
      }
    }
  }

  // ---------------------------------------------------------------------------
  // Sequences of calls
  // ---------------------------------------------------------------------------

  /** One call on the store. */
  datatype Call = Add(added: Appointment) | Delete(id: string) | Update(updated: Appointment)

  /** The list after one call; `Perform` shows that the three methods above compute it. */
  function Step(s: seq<Appointment>, c: Call): seq<Appointment> {
    match c
    case Add(a) => s + [a]
    case Delete(id) => Without(s, id)
    case Update(u) => Updated(s, u)
  }

  /** Whether a call publishes a snapshot: all do, except an update of an absent id. */
  ghost predicate Publishes(s: seq<Appointment>, c: Call) {
    !c.Update? || HasId(s, c.updated.id)
  }

  /** The list after a sequence of calls. */
  function Run(s: seq<Appointment>, calls: seq<Call>): seq<Appointment>
    decreases |calls|
  {
    if calls == [] then s else Run(Step(s, calls[0]), calls[1..])
  }

  /** The snapshots a sequence of calls publishes, in order. */
  ghost function Published(s: seq<Appointment>, calls: seq<Call>): seq<seq<Appointment>>
    decreases |calls|
  {
    if calls == [] then []
    else
      var next := Step(s, calls[0]);
      (if Publishes(s, calls[0]) then [next] else []) + Published(next, calls[1..])
  }

  /** Every add in `calls` brings an id absent from the list at that moment. */
  ghost predicate FreshAdds(s: seq<Appointment>, calls: seq<Call>)
    decreases |calls|
  {
    calls == [] ||
    ((calls[0].Add? ==> !HasId(s, calls[0].added.id)) && FreshAdds(Step(s, calls[0]), calls[1..]))
  }

  /** Ids stay pairwise distinct over any sequence of calls whose adds bring fresh ids. */
  lemma {:induction false} RunKeepsUnique(s: seq<Appointment>, calls: seq<Call>)
    requires UniqueIds(s) && FreshAdds(s, calls)
    ensures UniqueIds(Run(s, calls))
    decreases |calls|
  {
    if calls != [] {
      match calls[0] {
        case Add(a) => AppendKeepsUnique(s, a);
        case Delete(id) => WithoutKeepsUnique(s, id);
        case Update(u) => UpdatedKeepsUnique(s, u);
      }
      RunKeepsUnique(Step(s, calls[0]), calls[1..]);
    }
  }

  /** The ids the adds of `calls` bring are pairwise distinct and absent from `s`. */
  ghost predicate DistinctAdds(s: seq<Appointment>, calls: seq<Call>) {
    (forall i :: 0 <= i < |calls| ==> calls[i].Add? && !HasId(s, calls[i].added.id)) &&
    (forall i, j :: 0 <= i < j < |calls| ==> calls[i].added.id != calls[j].added.id)
  }

  /** Dropping the first add of a run of distinct fresh adds leaves such a run for the longer list. */
  lemma DistinctAddsTail(s: seq<Appointment>, calls: seq<Call>)
    requires |calls| > 0 && DistinctAdds(s, calls)
    ensures DistinctAdds(s + [calls[0].added], calls[1..])
  {
    var next := s + [calls[0].added];
    var rest := calls[1..];
    forall i | 0 <= i < |rest|
      ensures rest[i].Add? && !HasId(next, rest[i].added.id)
    {
      assert rest[i] == calls[i + 1];
      forall j | 0 <= j < |next|
        ensures next[j].id != rest[i].added.id
      {
        if j < |s| {
          assert next[j] == s[j];
        }
      }
    }
    forall i, j | 0 <= i < j < |rest|
      ensures rest[i].added.id != rest[j].added.id
    {
      assert rest[i] == calls[i + 1] && rest[j] == calls[j + 1];
    }
  }

  /** The appointments a run of adds brings, in order. */
  ghost function AddedBy(calls: seq<Call>): seq<Appointment>
    requires forall i :: 0 <= i < |calls| ==> calls[i].Add?
    decreases |calls|
  {
    if calls == [] then [] else [calls[0].added] + AddedBy(calls[1..])
  }

  /**
   * Starting from `s`, a sequence of adds with distinct fresh ids publishes
   * one snapshot per add, the k-th of them one entry longer than the one
   * before, keeps ids distinct throughout and ends with `s` followed by the
   * added appointments.
   */
  lemma {:induction false} AddsOnly(s: seq<Appointment>, calls: seq<Call>)
    requires UniqueIds(s) && DistinctAdds(s, calls)
    ensures |Published(s, calls)| == |calls|
    ensures forall k :: 0 <= k < |calls| ==>
              |Published(s, calls)[k]| == |s| + k + 1 && UniqueIds(Published(s, calls)[k])
    ensures Run(s, calls) == s + AddedBy(calls)
    decreases |calls|
  {
    if calls != [] {
      var next := s + [calls[0].added];
      var rest := calls[1..];
      AppendKeepsUnique(s, calls[0].added);
      DistinctAddsTail(s, calls);
      AddsOnly(next, rest);
      var pub := Published(s, calls);
      assert pub == [next] + Published(next, rest);
      forall k | 0 <= k < |calls|
        ensures |pub[k]| == |s| + k + 1 && UniqueIds(pub[k])
      {
        if k > 0 {
          assert pub[k] == Published(next, rest)[k - 1];
        }
      }
      assert s + AddedBy(calls) == next + AddedBy(rest);
    }
  }

  /** An add followed by a delete of the same fresh id publishes the list it started from. */
  lemma AddThenDelete(s: seq<Appointment>, a: Appointment)
    requires !HasId(s, a.id)
    ensures Published(s, [Add(a), Delete(a.id)]) == [s + [a], s]
  {
    DeleteUndoesAdd(s, a);
    assert [Add(a), Delete(a.id)][1..] == [Delete(a.id)];
    assert [Delete(a.id)][1..] == [];
    assert Published(s + [a], [Delete(a.id)]) == [s];
  }

  /** Two deletes of the same id: the second publishes the same list again. */
  lemma DeleteTwice(s: seq<Appointment>, id: string)
    ensures Published(s, [Delete(id), Delete(id)]) == [Without(s, id), Without(s, id)]
  {
    WithoutIdempotent(s, id);
    assert [Delete(id), Delete(id)][1..] == [Delete(id)];
    assert [Delete(id)][1..] == [];
    assert Published(Without(s, id), [Delete(id)]) == [Without(s, id)];
  }

  /** An update of an absent id leaves the list unchanged and publishes nothing. */
  lemma UpdateAbsentPublishesNothing(s: seq<Appointment>, u: Appointment)
    requires !HasId(s, u.id)
    ensures Run(s, [Update(u)]) == s && Published(s, [Update(u)]) == []
  {
    UpdatedAbsent(s, u);
  }

  // ---------------------------------------------------------------------------
  // The call model describes the store
  // ---------------------------------------------------------------------------

  /** One more call extends the final list by one step and the published snapshots by that step's. */
  lemma {:induction false} RunSnoc(s: seq<Appointment>, calls: seq<Call>, c: Call)
    ensures Run(s, calls + [c]) == Step(Run(s, calls), c)
    ensures Published(s, calls + [c]) ==
              Published(s, calls) +
              (if Publishes(Run(s, calls), c) then [Step(Run(s, calls), c)] else [])
    decreases |calls|
  {
    if calls == [] {
      assert [c][1..] == [];
    } else {
      assert (calls + [c])[0] == calls[0];
      assert (calls + [c])[1..] == calls[1..] + [c];
      RunSnoc(Step(s, calls[0]), calls[1..], c);
    }
  }

  /** Performs one call on the store: its effect and its publication are those of `Step` and `Publishes`. */
  method Perform(service: AppointmentService, c: Call)
    requires service.Valid()
    modifies service, service.current
    ensures service.Valid()
    ensures service.current == old(service.current) || fresh(service.current)
    ensures service.Contents() == Step(old(service.Contents()), c)
    ensures service.log ==
              old(service.log) +
              (if Publishes(old(service.Contents()), c) then [service.Contents()] else [])
  {
    match c {
      case Add(a) => service.AddAppointment(a);
      case Delete(id) => service.DeleteAppointment(id);
      case Update(u) => service.UpdateAppointment(u);
    }
  }

  /**
   * Performs a sequence of calls in order: the final list is `Run` of the
   * calls and the log grows by exactly the snapshots `Published` lists, so
   * the session lemmas above are statements about the store itself.
   */
  method PerformAll(service: AppointmentService, calls: seq<Call>)
    requires service.Valid()
    modifies service, service.current
    ensures service.Valid()
    ensures service.Contents() == Run(old(service.Contents()), calls)
    ensures service.log == old(service.log) + Published(old(service.Contents()), calls)
  {
    ghost var start := service.Contents();
    ghost var startLog := service.log;
    assert calls[..0] == [];
    var i := 0;
    while i < |calls|
      invariant 0 <= i <= |calls|
      invariant service.Valid()
      invariant service.current == old(service.current) || fresh(service.current)
      invariant service.Contents() == Run(start, calls[..i])
      invariant service.log == startLog + Published(start, calls[..i])
    {
      RunSnoc(start, calls[..i], calls[i]);
      assert calls[..i + 1] == calls[..i] + [calls[i]];
      Perform(service, calls[i]);
      i := i + 1;
    }
    assert calls[..|calls|] == calls;
  }
}
