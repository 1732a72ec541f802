/**
 * The three list operations the handlers apply to the stored users after a
 * confirmed save or delete: replace by id (update), append with a locally
 * computed id (create) and remove by id (delete).
 */
module Collection {
  import opened Records

  /** No two stored users share an id. The dashboard relies on it for row
      keys but never enforces it. */
  ghost predicate UniqueIds(users: seq<User>) {
    forall i, j :: 0 <= i < j < |users| ==> users[i].id != users[j].id
  }

  ghost predicate HasId(users: seq<User>, id: Id) {
    exists i :: 0 <= i < |users| && users[i].id == id
  }

  /** Every stored user carries a number as its id, never the empty draft
      id. */
  ghost predicate NumericIds(users: seq<User>) {
    forall k :: 0 <= k < |users| ==> users[k].id.Num?
  }

  /** How many stored users carry `id`. */
  function CountId(users: seq<User>, id: Id): (n: nat)
    ensures n <= |users|
  {
    if |users| == 0 then 0
    else (if users[0].id == id then 1 else 0) + CountId(users[1..], id)
  }

  /** An id is counted exactly when some stored user carries it. */
  lemma {:induction false} CountIdZero(users: seq<User>, id: Id)
    ensures CountId(users, id) == 0 <==> !HasId(users, id)
  {
    if |users| > 0 {
      CountIdZero(users[1..], id);
      if HasId(users[1..], id) {
        var i :| 0 <= i < |users| - 1 && users[1..][i].id == id;
        assert users[i + 1].id == id;
      }
      if HasId(users, id) && users[0].id != id {
        var i :| 0 <= i < |users| && users[i].id == id;
        assert users[1..][i - 1].id == id;
      }
    }
  }

  // ---------------------------------------------------------------------
  // Update: `users.map(user => user.id === draft.id ? draft : user)`
  // ---------------------------------------------------------------------

  /** Every entry whose id equals the draft's id becomes the draft; every
      other entry stays where it was. */
  function Replaced(users: seq<User>, draft: User): (r: seq<User>)
    ensures |r| == |users|
    ensures forall i :: 0 <= i < |users| && users[i].id == draft.id ==> r[i] == draft
    ensures forall i :: 0 <= i < |users| && users[i].id != draft.id ==> r[i] == users[i]
  {
    if |users| == 0 then []
    else [if users[0].id == draft.id then draft else users[0]] + Replaced(users[1..], draft)
  }

  /** With no entry carrying the draft's id, the update changes nothing. */
  lemma ReplacedNoMatch(users: seq<User>, draft: User)
    requires !HasId(users, draft.id)
    ensures Replaced(users, draft) == users
  {
  }

  /** With unique ids, the update replaces the one matching position. */
  lemma ReplacedUnique(users: seq<User>, draft: User, k: nat)
    requires UniqueIds(users)
    requires k < |users| && users[k].id == draft.id
    ensures Replaced(users, draft) == users[k := draft]
  {
  }

  /** The update keeps every position's id, so it keeps ids unique. */
  lemma ReplacedKeepsIds(users: seq<User>, draft: User)
    ensures forall i :: 0 <= i < |users| ==> Replaced(users, draft)[i].id == users[i].id
    ensures UniqueIds(users) ==> UniqueIds(Replaced(users, draft))
  {
  }

  /** Saving the same draft twice is the same as saving it once. */
  lemma ReplacedIdempotent(users: seq<User>, draft: User)
    ensures Replaced(Replaced(users, draft), draft) == Replaced(users, draft)
  {
  }

  // ---------------------------------------------------------------------
  // Create: `[...users, { ...draft, id: users.length + 1 }]`
  // ---------------------------------------------------------------------

  /** The list with the draft appended under the id `|users| + 1`. */
  function Appended(users: seq<User>, draft: User): (r: seq<User>)
    ensures |r| == |users| + 1
    ensures r[..|users|] == users
    ensures r[|users|] == draft.(id := Num(|users| + 1))
  {
    users + [draft.(id := Num(|users| + 1))]
  }

  /** The appended list has unique ids exactly when the old one had and no
      stored user already carries the length-plus-one id. */
  lemma AppendedUniqueIff(users: seq<User>, draft: User)
    ensures UniqueIds(Appended(users, draft))
            <==> UniqueIds(users) && !HasId(users, Num(|users| + 1))
  {
    var r := Appended(users, draft);
    if UniqueIds(r) {
      forall i, j | 0 <= i < j < |users| ensures users[i].id != users[j].id {
        assert r[i] == users[i] && r[j] == users[j];
      }
      forall i | 0 <= i < |users| ensures users[i].id != Num(|users| + 1) {
        assert r[i] == users[i];
      }
    }
  }

  // ---------------------------------------------------------------------
  // Delete: `users.filter(user => user.id !== id)`
  // ---------------------------------------------------------------------

  /** The list without the entries carrying `id`: the others, in order. */
  function Without(users: seq<User>, id: Id): (r: seq<User>)
    ensures |r| <= |users|
    ensures forall k :: 0 <= k < |r| ==> r[k].id != id
  {
    if |users| == 0 then []
    else
      var rest := Without(users[1..], id);
      if users[0].id == id then rest else [users[0]] + rest
  }

  /** Delete shortens the list by the number of entries carrying `id`. */
  lemma {:induction false} WithoutLength(users: seq<User>, id: Id)
    ensures |Without(users, id)| == |users| - CountId(users, id)
  {
    if |users| > 0 {
      WithoutLength(users[1..], id);
    }
  }

  /** Delete keeps exactly the entries whose id differs from `id`. */
  lemma {:induction false} WithoutMembers(users: seq<User>, id: Id)
    ensures forall k :: 0 <= k < |Without(users, id)| ==>
              Without(users, id)[k] in users && Without(users, id)[k].id != id
    ensures forall k :: 0 <= k < |users| && users[k].id != id ==> users[k] in Without(users, id)
  {
    if |users| > 0 {
      var tail := users[1..];
      WithoutMembers(tail, id);
      var rest := Without(tail, id);
      var r := Without(users, id);
      forall k | 0 <= k < |r| ensures r[k] in users && r[k].id != id {
        if users[0].id == id {
          assert r[k] == rest[k] && rest[k] in tail;
        } else if k > 0 {
          assert r[k] == rest[k - 1] && rest[k - 1] in tail;
        }
      }
      forall k | 0 <= k < |users| && users[k].id != id ensures users[k] in r {
        if k > 0 {
          assert users[k] == tail[k - 1];
        }
      }
    }
  }

  /** Delete looks at the head entry, then deletes from the rest. */
  lemma WithoutCons(u: User, rest: seq<User>, id: Id)
    ensures Without([u] + rest, id) == if u.id == id then Without(rest, id) else [u] + Without(rest, id)
  {
    assert ([u] + rest)[1..] == rest;
  }

  /** Delete commutes with concatenation: what is kept keeps its order. */
  lemma {:induction false} WithoutAppend(a: seq<User>, b: seq<User>, id: Id)
    ensures Without(a + b, id) == Without(a, id) + Without(b, id)
  {
    if |a| == 0 {
      assert a + b == b;
    } else {
      var u, tail := a[0], a[1..];
      assert a == [u] + tail;
      assert a + b == [u] + (tail + b);
      WithoutAppend(tail, b, id);
      WithoutCons(u, tail, id);
      WithoutCons(u, tail + b, id);
      if u.id != id {
        assert [u] + (Without(tail, id) + Without(b, id)) == ([u] + Without(tail, id)) + Without(b, id);
      }
    }
  }

  /** With no entry carrying `id`, delete changes nothing. */
  lemma {:induction false} WithoutNoMatch(users: seq<User>, id: Id)
    requires !HasId(users, id)
    ensures Without(users, id) == users
  {
    if |users| > 0 {
      forall i | 0 <= i < |users| - 1 ensures users[1..][i].id != id {
        assert users[1..][i] == users[i + 1];
      }
      WithoutNoMatch(users[1..], id);
      assert users[0].id != id;
      assert users == [users[0]] + users[1..];
    }
  }

  /** An entry kept at the end of the list stays at the end. */
  lemma WithoutKeepsLast(users: seq<User>, id: Id)
    requires |users| > 0 && users[|users| - 1].id != id
    ensures |Without(users, id)| > 0
    ensures Without(users, id)[|Without(users, id)| - 1] == users[|users| - 1]
  {
    var n := |users|;
    WithoutAppend(users[..n - 1], [users[n - 1]], id);
    assert users[..n - 1] + [users[n - 1]] == users;
    assert Without([users[n - 1]], id) == [users[n - 1]];
  }

  /** Unique ids stay unique after a delete. */
  lemma {:induction false} WithoutKeepsUnique(users: seq<User>, id: Id)
    requires UniqueIds(users)
    ensures UniqueIds(Without(users, id))
  {
    if |users| > 0 {
      var tail := users[1..];
      UniqueTail(users);
      WithoutKeepsUnique(tail, id);
      var rest := Without(tail, id);
      WithoutMembers(tail, id);
      if users[0].id != id {
        forall k | 0 <= k < |rest| ensures rest[k].id != users[0].id {
          var m :| 0 <= m < |tail| && tail[m] == rest[k];
          assert users[m + 1] == rest[k];
        }
        UniqueCons(users[0], rest);
      }
    }
  }

  lemma UniqueTail(users: seq<User>)
    requires |users| > 0 && UniqueIds(users)
    ensures UniqueIds(users[1..])
  {
    var tail := users[1..];
    forall i, j | 0 <= i < j < |tail| ensures tail[i].id != tail[j].id {
      assert tail[i] == users[i + 1] && tail[j] == users[j + 1];
    }
  }

  lemma UniqueCons(u: User, rest: seq<User>)
    requires UniqueIds(rest)
    requires forall k :: 0 <= k < |rest| ==> rest[k].id != u.id
    ensures UniqueIds([u] + rest)
  {
    var r := [u] + rest;
    forall i, j | 0 <= i < j < |r| ensures r[i].id != r[j].id {
      assert r[j] == rest[j - 1];
      if i > 0 {
        assert r[i] == rest[i - 1];
      }
    }
  }

  /** With unique ids, an id that is present occurs exactly once. */
  lemma {:induction false} CountUnique(users: seq<User>, id: Id)
    requires UniqueIds(users) && HasId(users, id)
    ensures CountId(users, id) == 1
  {
    var tail := users[1..];
    UniqueTail(users);
    if users[0].id == id {
      forall k | 0 <= k < |tail| ensures tail[k].id != id {
        assert tail[k] == users[k + 1];
      }
      CountIdZero(tail, id);
    } else {
      assert HasId(tail, id) by {
        var k :| 0 <= k < |users| && users[k].id == id;
        assert tail[k - 1].id == id;
      }
      CountUnique(tail, id);
    }
  }

  /** With unique ids, deleting a present id shortens the list by one and
      leaves no entry with that id. */
  lemma WithoutUniqueRemovesOne(users: seq<User>, id: Id)
    requires UniqueIds(users) && HasId(users, id)
    ensures |Without(users, id)| == |users| - 1
    ensures !HasId(Without(users, id), id)
  {
    CountUnique(users, id);
    WithoutLength(users, id);
    WithoutMembers(users, id);
  }

  // ---------------------------------------------------------------------
  // Ids are not reused safely
  // ---------------------------------------------------------------------

  /** Users numbered 1, 2, ..., n in order, as the directory sends them. */
  ghost predicate NumberedFromOne(users: seq<User>) {
    forall i :: 0 <= i < |users| ==> users[i].id == Num(i + 1)
  }

  lemma NumberedUnique(users: seq<User>)
    requires NumberedFromOne(users)
    ensures UniqueIds(users)
  {
  }

  /** Deleting any user but the last of 1..n and then creating one gives
      the new user the id of the last user again. */
  lemma CreateAfterDeleteDuplicates(users: seq<User>, k: int, draft: User)
    requires NumberedFromOne(users)
    requires 1 <= k < |users|
    ensures var r := Appended(Without(users, Num(k)), draft);
            && |r| == |users|
            && r[|users| - 2].id == Num(|users|) && r[|users| - 1].id == Num(|users|)
            && !UniqueIds(r)
  {
    NumberedUnique(users);
    assert users[k - 1].id == Num(k);
    WithoutUniqueRemovesOne(users, Num(k));
    var n := |users|;
    assert users[n - 1].id == Num(n) != Num(k);
    WithoutKeepsLast(users, Num(k));
    var kept := Without(users, Num(k));
    assert kept[|kept| - 1].id == Num(|kept| + 1);
    AppendedUniqueIff(kept, draft);
  }

  /** The concrete case: delete id 1 from ids [1, 2, 3], then create; the
      new user is given id 3, which the third user already has. */
  lemma CreateAfterDeleteExample(a: User, b: User, c: User, draft: User)
    requires a.id == Num(1) && b.id == Num(2) && c.id == Num(3)
    ensures Appended(Without([a, b, c], Num(1)), draft)
            == [b, c, draft.(id := Num(3))]
  {
    assert [a, b, c][1..] == [b, c];
    assert [b, c][1..] == [c];
    assert [c][1..] == [];
    assert Without([c], Num(1)) == [c];
    assert Without([b, c], Num(1)) == [b, c];
  }

  /** Over numeric ids, a draft carrying the empty id matches no entry, so
      the update changes nothing. */
  lemma BlankIdReplacesNothing(users: seq<User>, draft: User)
    requires NumericIds(users) && draft.id == Blank
    ensures Replaced(users, draft) == users
  {
    assert !HasId(users, Blank);
    ReplacedNoMatch(users, draft);
  }

  /** Over numeric ids, no entry carries the empty id, so deleting it
      changes nothing. */
  lemma BlankIdDeletesNothing(users: seq<User>)
    requires NumericIds(users)
    ensures Without(users, Blank) == users
  {
    assert !HasId(users, Blank);
    WithoutNoMatch(users, Blank);
  }
}
