/** The three ways the task list component rewrites its `tasks` array,
    as pure functions on sequences, and what each of them guarantees.
    None of them assumes that ids are unique in the list (the component
    never checks that), so every property is stated for ALL entries
    carrying the id in question; the uniqueness lemmas at the end say
    when the list keeps unique ids if it had them. */
module TaskSeq {
  import opened Remote

  // ---------------------------------------------------------------
  // Reference predicates
  // ---------------------------------------------------------------

  /** No entry of `s` carries `id`. */
  predicate NoneWithId(s: seq<Task>, id: int)
  {
    forall i :: 0 <= i < |s| ==> s[i].id != id
  }

  /** Every id occurs at most once in `s`. */
  predicate UniqueIds(s: seq<Task>)
  {
    forall i, j :: 0 <= i < j < |s| ==> s[i].id != s[j].id
  }

  /** `r` is obtained from `s` by dropping some entries and keeping the
      others in their original relative order. */
  ghost predicate IsSubsequence(r: seq<Task>, s: seq<Task>)
    decreases |s|
  {
    r == [] ||
    (s != [] && ((r[0] == s[0] && IsSubsequence(r[1..], s[1..])) || IsSubsequence(r, s[1..])))
  }

  /** How many entries of `s` carry `id`. */
  function CountId(s: seq<Task>, id: int): (n: nat)
    ensures n <= |s|
  {
    if s == [] then 0 else (if s[0].id == id then 1 else 0) + CountId(s[1..], id)
  }

  // ---------------------------------------------------------------
  // The transforms
  // ---------------------------------------------------------------

  /** Add: `[...prevTasks, newTask]`. */
  function Append(s: seq<Task>, t: Task): (r: seq<Task>)
    ensures |r| == |s| + 1
    ensures r[|s|] == t && r[..|s|] == s
  {
    s + [t]
  }

  /** Delete by id: `prevTasks.filter((task) => task.id !== id)`. */
  function RemoveById(s: seq<Task>, id: int): (r: seq<Task>)
    ensures |r| <= |s|
    ensures NoneWithId(r, id)
    ensures forall t :: t in r ==> t in s
  {
    if s == [] then []
    else if s[0].id != id then [s[0]] + RemoveById(s[1..], id)
    else RemoveById(s[1..], id)
  }

  /** Replace by id: `prevTasks.map((t) => (t.id === id ? u : t))`. */
  function ReplaceById(s: seq<Task>, id: int, u: Task): (r: seq<Task>)
    ensures |r| == |s|
    ensures forall t :: t in r ==> t == u || t in s
  {
    if s == [] then []
    else [if s[0].id == id then u else s[0]] + ReplaceById(s[1..], id, u)
  }

  // ---------------------------------------------------------------
  // RemoveById
  // ---------------------------------------------------------------

  /** After a delete no entry carries `id`, and the occurrences of every
      task with another id are exactly those of the old list. */
  lemma {:induction false} RemoveByIdCounts(s: seq<Task>, id: int)
    ensures NoneWithId(RemoveById(s, id), id)
    ensures forall t :: multiset(RemoveById(s, id))[t] == if t.id == id then 0 else multiset(s)[t]
  {
    if s != [] {
      RemoveByIdCounts(s[1..], id);
      assert s == [s[0]] + s[1..];
      assert multiset(s) == multiset([s[0]]) + multiset(s[1..]);
      if s[0].id != id {
        assert multiset(RemoveById(s, id)) == multiset([s[0]]) + multiset(RemoveById(s[1..], id));
      }
    }
  }

  /** A task is kept exactly when it was there and its id differs. */
  lemma {:induction false} RemoveByIdMembership(s: seq<Task>, id: int)
    ensures forall t :: t in RemoveById(s, id) <==> t in s && t.id != id
  {
    RemoveByIdCounts(s, id);
    forall t ensures t in RemoveById(s, id) <==> t in s && t.id != id {
      assert t in RemoveById(s, id) <==> multiset(RemoveById(s, id))[t] > 0;
      assert t in s <==> multiset(s)[t] > 0;
    }
  }

  /** The kept entries stay in their original relative order. */
  lemma {:induction false} RemoveByIdOrder(s: seq<Task>, id: int)
    ensures IsSubsequence(RemoveById(s, id), s)
  {
    if s != [] {
      RemoveByIdOrder(s[1..], id);
      var rest := RemoveById(s[1..], id);
      if s[0].id != id {
        assert RemoveById(s, id) == [s[0]] + rest;
        assert ([s[0]] + rest)[1..] == rest;
      }
    }
  }

  /** The list shrinks by exactly the number of matching entries, so a
      delete never lengthens it, and shortens it iff the id was present. */
  lemma {:induction false} RemoveByIdLength(s: seq<Task>, id: int)
    ensures |RemoveById(s, id)| == |s| - CountId(s, id)
    ensures |RemoveById(s, id)| <= |s|
    ensures |RemoveById(s, id)| == |s| <==> NoneWithId(s, id)
  {
    if s != [] {
      RemoveByIdLength(s[1..], id);
      CountIdZero(s[1..], id);
      CountIdZero(s, id);
    }
  }

  /** No entry carries `id` exactly when none is counted. */
  lemma {:induction false} CountIdZero(s: seq<Task>, id: int)
    ensures CountId(s, id) == 0 <==> NoneWithId(s, id)
  {
    if s != [] {
      CountIdZero(s[1..], id);
      assert forall i :: 1 <= i < |s| ==> s[i] == s[1..][i - 1];
    }
  }

  /** Deleting an id that no entry carries leaves the list as it was. */
  lemma {:induction false} RemoveByIdAbsent(s: seq<Task>, id: int)
    requires NoneWithId(s, id)
    ensures RemoveById(s, id) == s
  {
    if s != [] {
      assert NoneWithId(s[1..], id) by {
        forall i | 0 <= i < |s[1..]| ensures s[1..][i].id != id {
          assert s[1..][i] == s[i + 1];
        }
      }
      RemoveByIdAbsent(s[1..], id);
      assert s == [s[0]] + s[1..];
    }
  }

  /** Repeating a successful delete changes nothing. */
  lemma {:induction false} RemoveByIdIdempotent(s: seq<Task>, id: int)
    ensures RemoveById(RemoveById(s, id), id) == RemoveById(s, id)
  {
    RemoveByIdCounts(s, id);
    RemoveByIdAbsent(RemoveById(s, id), id);
  }

  // ---------------------------------------------------------------
  // ReplaceById
  // ---------------------------------------------------------------

  /** Pointwise meaning of the map: same length, every entry carrying
      `id` becomes `u`, every other entry is untouched. */
  lemma {:induction false} ReplaceByIdAt(s: seq<Task>, id: int, u: Task)
    ensures |ReplaceById(s, id, u)| == |s|
    ensures forall i :: 0 <= i < |s| ==>
      ReplaceById(s, id, u)[i] == if s[i].id == id then u else s[i]
  {
    if s != [] {
      ReplaceByIdAt(s[1..], id, u);
      var r := ReplaceById(s, id, u);
      forall i | 1 <= i < |s| ensures r[i] == if s[i].id == id then u else s[i] {
        assert r[i] == ReplaceById(s[1..], id, u)[i - 1];
        assert s[1..][i - 1] == s[i];
      }
    }
  }

  /** Replacing an id that no entry carries inserts nothing and changes nothing. */
  lemma {:induction false} ReplaceByIdAbsent(s: seq<Task>, id: int, u: Task)
    requires NoneWithId(s, id)
    ensures ReplaceById(s, id, u) == s
  {
    ReplaceByIdAt(s, id, u);
  }

  /** Applying the same replacement twice gives the result of applying it once. */
  lemma {:induction false} ReplaceByIdIdempotent(s: seq<Task>, id: int, u: Task)
    ensures ReplaceById(ReplaceById(s, id, u), id, u) == ReplaceById(s, id, u)
  {
    var r := ReplaceById(s, id, u);
    ReplaceByIdAt(s, id, u);
    ReplaceByIdAt(r, id, u);
  }

  /** When the replacement carries the matched id, the list's id column
      is exactly what it was. */
  lemma {:induction false} ReplaceByIdKeepsIds(s: seq<Task>, u: Task)
    ensures |ReplaceById(s, u.id, u)| == |s|
    ensures forall i :: 0 <= i < |s| ==> ReplaceById(s, u.id, u)[i].id == s[i].id
  {
    ReplaceByIdAt(s, u.id, u);
  }

  // ---------------------------------------------------------------
  // Uniqueness of ids
  // ---------------------------------------------------------------

  /** Appending a task whose id is not in the list keeps ids unique. */
  lemma AppendKeepsUnique(s: seq<Task>, t: Task)
    requires UniqueIds(s) && NoneWithId(s, t.id)
    ensures UniqueIds(Append(s, t))
  {
  }

  /** Appending a task whose id is already in the list breaks uniqueness:
      the add handler does not check for it. */
  lemma AppendDuplicateBreaksUnique(s: seq<Task>, t: Task)
    requires !NoneWithId(s, t.id)
    ensures !UniqueIds(Append(s, t))
  {
  }

  /** A delete keeps ids unique. */
  lemma {:induction false} RemoveByIdKeepsUnique(s: seq<Task>, id: int)
    requires UniqueIds(s)
    ensures UniqueIds(RemoveById(s, id))
  {
    if s != [] {
      var rest := RemoveById(s[1..], id);
      assert UniqueIds(s[1..]) by {
        forall i, j | 0 <= i < j < |s[1..]| ensures s[1..][i].id != s[1..][j].id {
          assert s[1..][i] == s[i + 1] && s[1..][j] == s[j + 1];
        }
      }
      RemoveByIdKeepsUnique(s[1..], id);
      if s[0].id != id {
        RemoveByIdMembership(s[1..], id);
        var r := [s[0]] + rest;
        forall i, j | 0 <= i < j < |r| ensures r[i].id != r[j].id {
          if i == 0 {
            assert r[j] == rest[j - 1] && rest[j - 1] in s[1..];
            var k :| 0 <= k < |s[1..]| && s[1..][k] == rest[j - 1];
            assert s[k + 1] == rest[j - 1];
          } else {
            assert r[i] == rest[i - 1] && r[j] == rest[j - 1];
          }
        }
      }
    }
  }

  /** A replacement that carries the matched id keeps ids unique. */
  lemma ReplaceByIdKeepsUnique(s: seq<Task>, u: Task)
    requires UniqueIds(s)
    ensures UniqueIds(ReplaceById(s, u.id, u))
  {
    ReplaceByIdKeepsIds(s, u);
    var r := ReplaceById(s, u.id, u);
    forall i, j | 0 <= i < j < |r| ensures r[i].id != r[j].id {
      assert r[i].id == s[i].id && r[j].id == s[j].id;
    }
  }
}
