/** Access to the load table by load id, never by row position: finding the
    first row with a given id, and keeping only the rows whose id is not in a
    given set. */
module LoadBook {
  import opened Entities

  /** The first load of the table whose id is `id` (a mask on the id column,
      then its first row). */
  function LoadById(ls: seq<Load>, id: string): (r: Option<Load>)
    ensures r.Some? ==> r.value in ls && r.value.id == id
    ensures r.None? <==> !HasLoad(ls, id)
  {
    if ls == [] then None
    else if ls[0].id == id then Some(ls[0])
    else
      var r := LoadById(ls[1..], id);
      assert HasLoad(ls, id) ==> HasLoad(ls[1..], id) by {
        if HasLoad(ls, id) {
          var j :| 0 <= j < |ls| && ls[j].id == id;
          assert ls[1..][j - 1] == ls[j];
        }
      }
      r
  }

  /** The table without the loads whose id is in `ids`, in the original order. */
  function WithoutIds(ls: seq<Load>, ids: set<string>): (r: seq<Load>)
    ensures |r| <= |ls|
    ensures forall j :: 0 <= j < |r| ==> r[j] in ls && r[j].id !in ids
    ensures forall x :: x in ls && x.id !in ids ==> x in r
  {
    if ls == [] then []
    else if ls[0].id in ids then WithoutIds(ls[1..], ids)
    else [ls[0]] + WithoutIds(ls[1..], ids)
  }

  /** With unique ids, looking up the id of row j yields row j. */
  lemma {:induction false} LoadByIdFindsRow(ls: seq<Load>, j: nat)
    requires DistinctLoadIds(ls) && j < |ls|
    ensures LoadById(ls, ls[j].id) == Some(ls[j])
  {
    if j > 0 {
      assert ls[0].id != ls[j].id;
      assert ls[1..][j - 1] == ls[j];
      LoadByIdFindsRow(ls[1..], j - 1);
    }
  }

  /** Removing other ids does not change what a lookup of `id` finds. */
  lemma {:induction false} LoadByIdAfterRemoval(ls: seq<Load>, ids: set<string>, id: string)
    requires id !in ids
    ensures LoadById(WithoutIds(ls, ids), id) == LoadById(ls, id)
  {
    if ls != [] {
      LoadByIdAfterRemoval(ls[1..], ids, id);
    }
  }

  /** Removing nothing that is present leaves the table as it is. */
  lemma {:induction false} WithoutAbsentIds(ls: seq<Load>, ids: set<string>)
    requires forall j :: 0 <= j < |ls| ==> ls[j].id !in ids
    ensures WithoutIds(ls, ids) == ls
  {
    if ls != [] {
      WithoutAbsentIds(ls[1..], ids);
    }
  }

  /** Two removals in a row are one removal of both id sets. */
  lemma {:induction false} WithoutIdsTwice(ls: seq<Load>, a: set<string>, b: set<string>)
    ensures WithoutIds(WithoutIds(ls, a), b) == WithoutIds(ls, a + b)
  {
    if ls != [] {
      WithoutIdsTwice(ls[1..], a, b);
      if ls[0].id !in a {
        assert WithoutIds(ls, a)[0] == ls[0];
        assert WithoutIds(ls, a)[1..] == WithoutIds(ls[1..], a);
      }
    }
  }

  /** The tail of a table with unique ids has unique ids, none equal to the
      head's. */
  lemma DistinctTail(ls: seq<Load>)
    requires DistinctLoadIds(ls) && ls != []
    ensures DistinctLoadIds(ls[1..])
    ensures forall j :: 0 <= j < |ls| - 1 ==> ls[1..][j].id != ls[0].id
  {
    var tail := ls[1..];
    forall i, j | 0 <= i < j < |tail| ensures tail[i].id != tail[j].id {
      assert tail[i] == ls[i + 1] && tail[j] == ls[j + 1];
    }
  }

  /** Removal keeps load ids unique. */
  lemma {:induction false} WithoutIdsKeepsDistinct(ls: seq<Load>, ids: set<string>)
    requires DistinctLoadIds(ls)
    ensures DistinctLoadIds(WithoutIds(ls, ids))
  {
    if ls != [] {
      DistinctTail(ls);
      WithoutIdsKeepsDistinct(ls[1..], ids);
      if ls[0].id !in ids {
        var rest := WithoutIds(ls[1..], ids);
        var r := [ls[0]] + rest;
        forall a, b | 0 <= a < b < |r| ensures r[a].id != r[b].id {
          assert r[b] == rest[b - 1] && rest[b - 1] in ls[1..];
          if a > 0 {
            assert r[a] == rest[a - 1];
          }
        }
      }
    }
  }

  /** Removal distributes over concatenation. */
  lemma {:induction false} WithoutIdsConcat(a: seq<Load>, b: seq<Load>, ids: set<string>)
    ensures WithoutIds(a + b, ids) == WithoutIds(a, ids) + WithoutIds(b, ids)
  {
    if a == [] {
      assert a + b == b;
    } else {
      assert (a + b)[0] == a[0];
      assert (a + b)[1..] == a[1..] + b;
      WithoutIdsConcat(a[1..], b, ids);
    }
  }

  /** Removal can be done separately on the rows before k and from k on. */
  lemma WithoutIdsSplit(ls: seq<Load>, k: nat, ids: set<string>)
    requires k <= |ls|
    ensures WithoutIds(ls, ids) == WithoutIds(ls[..k], ids) + WithoutIds(ls[k..], ids)
  {
    assert ls == ls[..k] + ls[k..];
    WithoutIdsConcat(ls[..k], ls[k..], ids);
  }

  /** A first row with a removed id is dropped. */
  lemma WithoutIdsDropsHead(ls: seq<Load>, ids: set<string>)
    requires ls != [] && ls[0].id in ids
    ensures WithoutIds(ls, ids) == WithoutIds(ls[1..], ids)
  {
  }

  /** Removing an id that no row before k carries leaves that prefix alone. */
  lemma PrefixWithoutAbsentId(ls: seq<Load>, k: nat, id: string)
    requires k <= |ls| && forall j :: 0 <= j < k ==> ls[j].id != id
    ensures WithoutIds(ls[..k], {id}) == ls[..k]
  {
    WithoutAbsentIds(ls[..k], {id});
  }

  /** Removing an id that no row from k on carries leaves that suffix alone. */
  lemma SuffixWithoutAbsentId(ls: seq<Load>, k: nat, id: string)
    requires k <= |ls| && forall j :: k <= j < |ls| ==> ls[j].id != id
    ensures WithoutIds(ls[k..], {id}) == ls[k..]
  {
    var s := ls[k..];
    forall j | 0 <= j < |s| ensures s[j].id !in {id} {
      assert s[j] == ls[k + j];
    }
    WithoutAbsentIds(s, {id});
  }

  /** When no other row shares row k's id (as with unique ids), removing
      that id removes exactly row k and keeps every other row in its order. */
  lemma WithoutOneRow(ls: seq<Load>, k: nat)
    requires k < |ls| && forall j :: 0 <= j < |ls| && j != k ==> ls[j].id != ls[k].id
    ensures WithoutIds(ls, {ls[k].id}) == ls[..k] + ls[k + 1..]
  {
    var ids := {ls[k].id};
    WithoutIdsSplit(ls, k, ids);
    WithoutIdsDropsHead(ls[k..], ids);
    assert ls[k..][1..] == ls[k + 1..];
    PrefixWithoutAbsentId(ls, k, ls[k].id);
    SuffixWithoutAbsentId(ls, k + 1, ls[k].id);
  }
}
