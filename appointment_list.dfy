/**
 * The list computations the appointment store performs on its current
 * collection: appending, removing every entry with an id (Array.filter) and
 * replacing the first entry with an id (Array.findIndex and a write at
 * that index), together with what they guarantee.
 */
module AppointmentList {
  import opened AppointmentModel

  /** Some entry of `s` carries `id`. */
  ghost predicate HasId(s: seq<Appointment>, id: string) {
    exists i :: 0 <= i < |s| && s[i].id == id
  }

  /** No two entries of `s` carry the same id. */
  ghost predicate UniqueIds(s: seq<Appointment>) {
    forall i, j :: 0 <= i < j < |s| ==> s[i].id != s[j].id
  }

  /** Index `j` is the first position of `s` whose entry carries `id`. */
  ghost predicate IsFirstMatch(s: seq<Appointment>, j: int, id: string) {
    0 <= j < |s| && s[j].id == id && forall k :: 0 <= k < j ==> s[k].id != id
  }

  /** The number of entries of `s` that carry `id`. */
  ghost function Count(s: seq<Appointment>, id: string): nat
    decreases |s|
  {
    if s == [] then 0
    else Count(s[..|s| - 1], id) + (if s[|s| - 1].id == id then 1 else 0)
  }

  // ---------------------------------------------------------------------------
  // delete: keep the entries whose id differs
  // ---------------------------------------------------------------------------

  /** The entries of `s` whose id differs from `id`, in their original order. */
  function Without(s: seq<Appointment>, id: string): (r: seq<Appointment>)
    ensures |r| <= |s|
    decreases |s|
  {
    if s == [] then []
    else Without(s[..|s| - 1], id) + (if s[|s| - 1].id != id then [s[|s| - 1]] else [])
  }

  /** The positions of `s` whose entry does not carry `id`, in increasing order. */
  ghost function Kept(s: seq<Appointment>, id: string): seq<int>
    decreases |s|
  {
    if s == [] then []
    else Kept(s[..|s| - 1], id) + (if s[|s| - 1].id != id then [|s| - 1] else [])
  }

  /**
   * `Without(s, id)` is the subsequence of `s` picked out by `Kept(s, id)`:
   * exactly the positions whose id differs, taken in increasing order.
   */
  lemma {:induction false} WithoutKept(s: seq<Appointment>, id: string)
    ensures |Kept(s, id)| == |Without(s, id)|
    ensures forall p :: 0 <= p < |Kept(s, id)| ==>
              0 <= Kept(s, id)[p] < |s| && Without(s, id)[p] == s[Kept(s, id)[p]]
    ensures forall p, q :: 0 <= p < q < |Kept(s, id)| ==> Kept(s, id)[p] < Kept(s, id)[q]
    ensures forall j :: 0 <= j < |s| ==> (s[j].id != id <==> j in Kept(s, id))
    decreases |s|
  {
    if s != [] {
      var init := s[..|s| - 1];
      WithoutKept(init, id);
      assert forall j :: 0 <= j < |init| ==> init[j] == s[j];
    }
  }

  /** After a delete no entry carries the deleted id. */
  lemma WithoutRemovesId(s: seq<Appointment>, id: string)
    ensures forall p :: 0 <= p < |Without(s, id)| ==> Without(s, id)[p].id != id
  {
    WithoutKept(s, id);
    forall p | 0 <= p < |Without(s, id)|
      ensures Without(s, id)[p].id != id
    {
      assert Kept(s, id)[p] in Kept(s, id);
    }
  }

  /** An appointment survives a delete exactly when it was there and carries another id. */
  lemma WithoutMembers(s: seq<Appointment>, id: string, x: Appointment)
    ensures x in Without(s, id) <==> x in s && x.id != id
  {
    WithoutKept(s, id);
    WithoutRemovesId(s, id);
    var r, k := Without(s, id), Kept(s, id);
    if x in r {
      var p :| 0 <= p < |r| && r[p] == x;
      assert s[k[p]] == x;
    }
    if x in s && x.id != id {
      var j :| 0 <= j < |s| && s[j] == x;
      assert j in k;
      var p :| 0 <= p < |k| && k[p] == j;
      assert r[p] == x;
    }
  }

  /** A delete shortens the list by the number of entries that carried the id. */
  lemma {:induction false} WithoutLength(s: seq<Appointment>, id: string)
    ensures |Without(s, id)| == |s| - Count(s, id)
    decreases |s|
  {
    if s != [] {
      WithoutLength(s[..|s| - 1], id);
    }
  }

  /** `Count` is positive exactly when the id is present. */
  lemma {:induction false} CountPositive(s: seq<Appointment>, id: string)
    ensures Count(s, id) > 0 <==> HasId(s, id)
    decreases |s|
  {
    if s != [] {
      var init := s[..|s| - 1];
      CountPositive(init, id);
      if HasId(init, id) {
        var i :| 0 <= i < |init| && init[i].id == id;
        assert s[i].id == id;
      }
      if HasId(s, id) && s[|s| - 1].id != id {
        var i :| 0 <= i < |s| && s[i].id == id;
        assert init[i].id == id;
      }
    }
  }

  /** A delete leaves the list as it was exactly when no entry carries the id. */
  lemma WithoutUnchanged(s: seq<Appointment>, id: string)
    ensures Without(s, id) == s <==> !HasId(s, id)
  {
    WithoutLength(s, id);
    CountPositive(s, id);
  }

  /** Deleting the same id a second time changes nothing. */
  lemma WithoutIdempotent(s: seq<Appointment>, id: string)
    ensures Without(Without(s, id), id) == Without(s, id)
  {
    WithoutRemovesId(s, id);
    WithoutUnchanged(Without(s, id), id);
  }

  /** A delete keeps ids pairwise distinct. */
  lemma WithoutKeepsUnique(s: seq<Appointment>, id: string)
    requires UniqueIds(s)
    ensures UniqueIds(Without(s, id))
  {
    WithoutKept(s, id);
  }

  /** Deleting the id of an appointment just added with a fresh id restores the list. */
  lemma DeleteUndoesAdd(s: seq<Appointment>, a: Appointment)
    requires !HasId(s, a.id)
    ensures Without(s + [a], a.id) == s
  {
    assert (s + [a])[..|s + [a]| - 1] == s;
    WithoutUnchanged(s, a.id);
  }

  // ---------------------------------------------------------------------------
  // update: find the first entry with the id and overwrite that slot
  // ---------------------------------------------------------------------------

  /** The first position of `s` whose entry carries `id`, or -1 when there is none. */
  function FindIndex(s: seq<Appointment>, id: string): (r: int)
    ensures -1 <= r < |s|
    ensures r == -1 <==> !HasId(s, id)
    ensures r != -1 ==> IsFirstMatch(s, r, id)
  {
    if s == [] then -1
    else if s[0].id == id then 0
    else
      var k := FindIndex(s[1..], id);
      assert forall j :: 0 <= j < |s| - 1 ==> s[1..][j] == s[j + 1];
      assert HasId(s, id) ==> HasId(s[1..], id) by {
        if HasId(s, id) {
          var i :| 0 <= i < |s| && s[i].id == id;
          assert s[1..][i - 1].id == id;
        }
      }
      if k == -1 then -1 else k + 1
  }

  /** The list after `update(u)`: the first entry with `u`'s id replaced by `u`, if any. */
  function Updated(s: seq<Appointment>, u: Appointment): (r: seq<Appointment>)
    ensures |r| == |s|
  {
    var index := FindIndex(s, u.id);
    if index == -1 then s else s[index := u]
  }

  /** Only the first position carrying `u`'s id is overwritten; every other position is kept. */
  lemma UpdatedAt(s: seq<Appointment>, u: Appointment)
    ensures forall j :: 0 <= j < |s| ==>
              Updated(s, u)[j] == (if IsFirstMatch(s, j, u.id) then u else s[j])
  {
  }

  /** An update whose id is absent leaves the list as it is. */
  lemma UpdatedAbsent(s: seq<Appointment>, u: Appointment)
    requires !HasId(s, u.id)
    ensures Updated(s, u) == s
  {
  }

  /** An update whose id is present puts `u` into the list. */
  lemma UpdatedPresent(s: seq<Appointment>, u: Appointment)
    requires HasId(s, u.id)
    ensures u in Updated(s, u)
  {
    var i := FindIndex(s, u.id);
    assert Updated(s, u)[i] == u;
  }

  /** An update does not change which ids are present. */
  lemma UpdatedSameIds(s: seq<Appointment>, u: Appointment, id: string)
    ensures HasId(Updated(s, u), id) <==> HasId(s, id)
  {
    var r := Updated(s, u);
    var index := FindIndex(s, u.id);
    if HasId(s, id) {
      var i :| 0 <= i < |s| && s[i].id == id;
      assert r[i].id == id;
    }
    if HasId(r, id) {
      var i :| 0 <= i < |r| && r[i].id == id;
      assert s[i].id == id;
    }
  }

  /** An update keeps ids pairwise distinct, since the replacement carries the matched id. */
  lemma UpdatedKeepsUnique(s: seq<Appointment>, u: Appointment)
    requires UniqueIds(s)
    ensures UniqueIds(Updated(s, u))
  {
    UpdatedAt(s, u);
  }

  /** Repeating an update changes nothing more. */
  lemma UpdatedIdempotent(s: seq<Appointment>, u: Appointment)
    ensures Updated(Updated(s, u), u) == Updated(s, u)
  {
    var r := Updated(s, u);
    UpdatedAt(s, u);
    UpdatedAt(r, u);
    forall j | 0 <= j < |s|
      ensures IsFirstMatch(r, j, u.id) <==> IsFirstMatch(s, j, u.id)
    {
    }
  }

  // ---------------------------------------------------------------------------
  // add: a copy of the list with the appointment at the end
  // ---------------------------------------------------------------------------

  /**
   * With distinct ids beforehand, appending keeps them distinct exactly when
   * the new id is not yet present: the append itself checks nothing.
   */
  lemma AppendKeepsUnique(s: seq<Appointment>, a: Appointment)
    requires UniqueIds(s)
    ensures UniqueIds(s + [a]) <==> !HasId(s, a.id)
  {
    if HasId(s, a.id) {
      var i :| 0 <= i < |s| && s[i].id == a.id;
      assert (s + [a])[i].id == (s + [a])[|s|].id;
    }
  }
}
