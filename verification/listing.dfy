/**
  `findMany({ where, orderBy: { <field>: 'desc' } })` over the projects
  table: the ids of the projects a filter keeps, newest first by a
  timestamp field. Ties are left in an unspecified order, as the database
  leaves them.
 */
module Listing {
  import opened Store

  /** The two timestamp fields the listings are ordered by. */
  function CreatedAt(p: Project): nat {
    p.createdAt
  }

  function UpdatedAt(p: Project): nat {
    p.updatedAt
  }

  /** No id occurs twice. */
  ghost predicate Distinct(ids: seq<Id>) {
    forall i, j :: 0 <= i < j < |ids| ==> ids[i] != ids[j]
  }

  /** Every id names a project, and their `key`s never increase. */
  ghost predicate Descending(ids: seq<Id>, ps: map<Id, Project>, key: Project -> nat) {
    && (forall i :: 0 <= i < |ids| ==> ids[i] in ps)
    && (forall i, j :: 0 <= i < j < |ids| ==> key(ps[ids[i]]) >= key(ps[ids[j]]))
  }

  /** `ids` with `id` placed before the first entry whose key is not larger than its own. */
  function InsertByKey(ids: seq<Id>, id: Id, ps: map<Id, Project>, key: Project -> nat): (r: seq<Id>)
    requires id in ps && Descending(ids, ps, key)
    ensures |r| == |ids| + 1
    ensures forall x :: x in r <==> x in ids || x == id
    ensures Descending(r, ps, key)
    ensures Distinct(ids) && id !in ids ==> Distinct(r)
  {
    if |ids| == 0 || key(ps[id]) >= key(ps[ids[0]]) then
      [id] + ids
    else
      var t := InsertByKey(ids[1..], id, ps, key);
      BelowHead(ids, id, ps, key, t);
      DistinctTail(ids);
      [ids[0]] + t
  }

  /** The head of a descending list, larger than `id`, stays ahead of `id` inserted into its tail. */
  lemma BelowHead(ids: seq<Id>, id: Id, ps: map<Id, Project>, key: Project -> nat, t: seq<Id>)
    requires |ids| > 0 && id in ps && Descending(ids, ps, key) && key(ps[id]) < key(ps[ids[0]])
    requires (forall x :: x in t <==> x in ids[1..] || x == id) && Descending(t, ps, key)
    ensures Descending([ids[0]] + t, ps, key)
  {
    forall k | 0 <= k < |t|
      ensures key(ps[ids[0]]) >= key(ps[t[k]])
    {
      assert t[k] in t;
      if t[k] != id {
        var m :| 0 <= m < |ids[1..]| && ids[1..][m] == t[k];
        assert ids[m + 1] == t[k];
      }
    }
    forall i, j | 0 <= i < j < |[ids[0]] + t|
      ensures key(ps[([ids[0]] + t)[i]]) >= key(ps[([ids[0]] + t)[j]])
    {
      if i > 0 {
        assert ([ids[0]] + t)[i] == t[i - 1] && ([ids[0]] + t)[j] == t[j - 1];
      }
    }
  }

  lemma DistinctTail(ids: seq<Id>)
    requires |ids| > 0
    ensures Distinct(ids) ==> ids[0] !in ids[1..] && Distinct(ids[1..])
  {
    if Distinct(ids) {
      forall m | 0 <= m < |ids[1..]| ensures ids[1..][m] != ids[0] {
        assert ids[1..][m] == ids[m + 1];
      }
      forall i, j | 0 <= i < j < |ids[1..]| ensures ids[1..][i] != ids[1..][j] {
        assert ids[1..][i] == ids[i + 1] && ids[1..][j] == ids[j + 1];
      }
    }
  }

  /**
    The ids of the projects `keep` selects, each exactly once, ordered by
    `key` from the largest down.
   */
  method NewestFirst(ps: map<Id, Project>, keep: Project -> bool, key: Project -> nat) returns (ids: seq<Id>)
    ensures forall i :: 0 <= i < |ids| ==> ids[i] in ps && keep(ps[ids[i]])
    ensures forall id :: id in ps && keep(ps[id]) ==> id in ids
    ensures Distinct(ids)
    ensures Descending(ids, ps, key)
  {
    var rest := ps.Keys;
    ids := [];
    while rest != {}
      invariant rest <= ps.Keys
      invariant forall i :: 0 <= i < |ids| ==> ids[i] in ps && ids[i] !in rest && keep(ps[ids[i]])
      invariant forall id :: id in ps && id !in rest && keep(ps[id]) ==> id in ids
      invariant Distinct(ids)
      invariant Descending(ids, ps, key)
      decreases |rest|
    {
      var id :| id in rest;
      if keep(ps[id]) {
        var before := ids;
        ids := InsertByKey(ids, id, ps, key);
        forall i | 0 <= i < |ids|
          ensures ids[i] in ps && ids[i] != id ==> ids[i] !in rest && keep(ps[ids[i]])
        {
          if ids[i] != id {
            assert ids[i] in ids;
            var m :| 0 <= m < |before| && before[m] == ids[i];
          }
        }
      }
      rest := rest - {id};
    }
  }
}
