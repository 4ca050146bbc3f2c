// Saved command shortcuts: appended on save, filtered out by id on delete.
module Presets {
  import opened Records

  /** No saved preset carries `id`. */
  predicate FreshId(ps: seq<Preset>, id: string) {
    forall i :: 0 <= i < |ps| ==> ps[i].id != id
  }

  /** No two saved presets share an id. */
  predicate UniqueIds(ps: seq<Preset>) {
    forall i, j :: 0 <= i < j < |ps| ==> ps[i].id != ps[j].id
  }

  /** `presets.filter((p) => p.id !== id)`: what is kept comes from `ps` and lacks the
      id, and every preset of `ps` without the id is kept. */
  function WithoutId(ps: seq<Preset>, id: string): (r: seq<Preset>)
    ensures |r| <= |ps|
    ensures forall p :: p in r ==> p in ps && p.id != id
    ensures forall p :: p in ps && p.id != id ==> p in r
  {
    if ps == [] then []
    else if ps[0].id == id then WithoutId(ps[1..], id)
    else [ps[0]] + WithoutId(ps[1..], id)
  }

  /** How many presets carry `id`. */
  function CountId(ps: seq<Preset>, id: string): nat {
    if ps == [] then 0 else (if ps[0].id == id then 1 else 0) + CountId(ps[1..], id)
  }

  /** Deleting drops exactly the presets carrying the id. */
  lemma {:induction false} WithoutIdCount(ps: seq<Preset>, id: string)
    ensures |WithoutId(ps, id)| == |ps| - CountId(ps, id)
  {
    if ps != [] {
      WithoutIdCount(ps[1..], id);
    }
  }

  /** Deleting an id that is absent leaves the presets as they were. */
  lemma {:induction false} WithoutAbsentId(ps: seq<Preset>, id: string)
    requires FreshId(ps, id)
    ensures WithoutId(ps, id) == ps
  {
    if ps != [] {
      WithoutAbsentId(ps[1..], id);
      assert ps == [ps[0]] + ps[1..];
    }
  }

  /** Filtering works piece by piece, so the kept presets stay in their order. */
  lemma {:induction false} WithoutIdConcat(a: seq<Preset>, b: seq<Preset>, id: string)
    ensures WithoutId(a + b, id) == WithoutId(a, id) + WithoutId(b, id)
  {
    if a == [] {
      assert a + b == b;
    } else {
      assert (a + b)[0] == a[0];
      assert (a + b)[1..] == a[1..] + b;
      WithoutIdConcat(a[1..], b, id);
    }
  }

  /** Saving a preset under a fresh id and then deleting that id restores the list. */
  lemma AddThenDelete(ps: seq<Preset>, p: Preset)
    requires FreshId(ps, p.id)
    ensures WithoutId(ps + [p], p.id) == ps
  {
    WithoutIdConcat(ps, [p], p.id);
    WithoutAbsentId(ps, p.id);
    assert WithoutId([p], p.id) == [];
  }

  /** A preset whose id is fresh can go in front without clashing. */
  lemma ConsKeepsUnique(p: Preset, ps: seq<Preset>)
    requires UniqueIds(ps) && FreshId(ps, p.id)
    ensures UniqueIds([p] + ps)
  {
    var r := [p] + ps;
    forall i, j | 0 <= i < j < |r| ensures r[i].id != r[j].id {
      assert r[j] == ps[j - 1];
      if i > 0 {
        assert r[i] == ps[i - 1];
      }
    }
  }

  /** Deleting keeps ids unique. */
  lemma {:induction false} WithoutIdUnique(ps: seq<Preset>, id: string)
    requires UniqueIds(ps)
    ensures UniqueIds(WithoutId(ps, id))
  {
    if ps != [] {
      var tail := ps[1..];
      assert UniqueIds(tail) by {
        forall i, j | 0 <= i < j < |tail| ensures tail[i].id != tail[j].id {
          assert tail[i] == ps[i + 1] && tail[j] == ps[j + 1];
        }
      }
      WithoutIdUnique(tail, id);
      if ps[0].id != id {
        var rest := WithoutId(tail, id);
        assert FreshId(rest, ps[0].id) by {
          forall k | 0 <= k < |rest| ensures rest[k].id != ps[0].id {
            assert rest[k] in rest;
            var m :| 0 <= m < |tail| && tail[m] == rest[k];
            assert tail[m] == ps[m + 1];
          }
        }
        ConsKeepsUnique(ps[0], rest);
      }
    }
  }

  /** Saving under a fresh id keeps ids unique. */
  lemma AddKeepsUnique(ps: seq<Preset>, p: Preset)
    requires UniqueIds(ps) && FreshId(ps, p.id)
    ensures UniqueIds(ps + [p])
  {
  }
}
