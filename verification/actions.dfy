/** The sprite-set bookkeeping of `FakeReferencingGenericSpriteLayout` in
    agrf/actions.py: which sprite-set ids the layout refers to, and the list of
    actions it references. The `grf` actions themselves are records here. */
module Actions {
  import opened Wrappers

  /** `tuple(range(lo, hi))`. */
  function Range(lo: int, hi: int): (r: seq<int>)
    ensures |r| == if lo < hi then hi - lo else 0
    ensures forall i | 0 <= i < |r| :: r[i] == lo + i
  {
    if lo < hi then seq(hi - lo, i => lo + i) else []
  }

  /** A referenced action: the `Action1` declaring the sprite sets, or the
      alternative-sprites wrapper of one sprite. */
  datatype Ref<S> =
    | Action1(firstSet: int, setCount: nat, spriteCount: nat)
    | Alternative(sprite: S)

  /** The layout: its two entity id tuples and its references. */
  datatype SpriteLayout<S> = SpriteLayout(ent1: seq<int>, ent2: seq<int>, refs: seq<Ref<S>>)

  /** One alternative-sprites wrapper per sprite of a set. */
  function Wrap<S>(sprites: seq<S>): (r: seq<Ref<S>>)
    ensures |r| == |sprites|
  {
    seq(|sprites|, j requires 0 <= j < |sprites| => Alternative(sprites[j]))
  }

  /** `[FakeAlternativeSprites(l) for sl in sets for l in sl]`. */
  function Alternatives<S>(sets: seq<seq<S>>): (r: seq<Ref<S>>)
    ensures forall k | 0 <= k < |r| :: r[k].Alternative?
  {
    if sets == [] then [] else Wrap(sets[0]) + Alternatives(sets[1..])
  }

  /** The number of sprites over all sets. */
  function Total<S>(sets: seq<seq<S>>): (n: nat)
  {
    if sets == [] then 0 else |sets[0]| + Total(sets[1..])
  }

  /** `FakeReferencingGenericSpriteLayout(feature, sprites, loading_sprites)`.
      `sprites[0]` (and `ent1[0]`) raise IndexError when there are no sprite
      sets. */
  function FakeLayout<S>(sprites: seq<seq<S>>, loading: Option<seq<seq<S>>>): (r: Result<SpriteLayout<S>>)
    ensures r.Err? <==> sprites == []
    ensures r.Err? ==> r.error == IndexError
  {
    var n := |sprites|;
    var (ent1, ent2, more) :=
      if loading.None? then (Range(31 - n, 31), Range(31 - n, 31), [])
      else
        var m := |loading.value|;
        (Range(31 - n - m, 31 - m), Range(31 - m, 31), loading.value);
    if ent1 == [] || sprites == [] then Err(IndexError)
    else
      Ok(SpriteLayout(ent1, ent2,
        [Action1(ent1[0], n, |sprites[0]|)] + Alternatives(sprites) + Alternatives(more)))
  }

  /** The alternatives of consecutive sets follow each other. */
  lemma {:induction false} AlternativesAppend<S>(a: seq<seq<S>>, b: seq<seq<S>>)
    ensures Alternatives(a + b) == Alternatives(a) + Alternatives(b)
  {
    if a != [] {
      assert (a + b)[0] == a[0];
      assert (a + b)[1..] == a[1..] + b;
      AlternativesAppend(a[1..], b);
    } else {
      assert a + b == b;
    }
  }

  /** One alternative per sprite, each set's sprites in order. */
  lemma {:induction false} AlternativesOrder<S>(sets: seq<seq<S>>, i: nat, j: nat)
    requires i < |sets| && j < |sets[i]|
    ensures |Alternatives(sets)| == Total(sets)
    ensures Total(sets[..i]) + j < Total(sets)
    ensures Alternatives(sets)[Total(sets[..i]) + j] == Alternative(sets[i][j])
  {
    AlternativesLength(sets);
    if i > 0 {
      AlternativesOrder(sets[1..], i - 1, j);
      assert sets[1..][..i - 1] == sets[..i][1..];
      assert sets[1..][i - 1] == sets[i];
    }
  }

  lemma {:induction false} AlternativesLength<S>(sets: seq<seq<S>>)
    ensures |Alternatives(sets)| == Total(sets)
  {
    if sets != [] {
      AlternativesLength(sets[1..]);
    }
  }

  /** Without loading sprites both id tuples are `31 - n .. 30`; with `m`
      loading sprite sets the first is `31 - n - m .. 30 - m` and the second
      `31 - m .. 30`, so the two are adjacent and together end at 30. Either
      way the first holds one id per sprite set, and every id is below 31. */
  lemma FakeLayoutIds<S>(sprites: seq<seq<S>>, loading: Option<seq<seq<S>>>)
    requires sprites != []
    ensures var l := FakeLayout(sprites, loading).value;
      |l.ent1| == |sprites| &&
      (forall i | 0 <= i < |l.ent1| :: l.ent1[i] < 31) &&
      (forall i | 0 <= i < |l.ent2| :: l.ent2[i] < 31) &&
      l.ent1[|l.ent1| - 1] == 30 - (if loading.None? then 0 else |loading.value|) &&
      (loading.None? ==> l.ent1 == l.ent2) &&
      (loading.Some? ==>
        |l.ent2| == |loading.value| &&
        l.ent1 + l.ent2 == Range(31 - |sprites| - |loading.value|, 31) &&
        forall i, j | 0 <= i < |l.ent1| && 0 <= j < |l.ent2| :: l.ent1[i] < l.ent2[j])
  {
    var l := FakeLayout(sprites, loading).value;
    if loading.Some? {
      var n, m := |sprites|, |loading.value|;
      var whole := Range(31 - n - m, 31);
      assert l.ent1 + l.ent2 == whole by {
        forall k | 0 <= k < |whole| ensures (l.ent1 + l.ent2)[k] == whole[k] {
          if k >= n {
            assert (l.ent1 + l.ent2)[k] == l.ent2[k - n];
          }
        }
      }
    }
  }

  /** The references: first the `Action1` for the sets starting at the first
      id, then one alternative per sprite of the sprite sets, then one per
      sprite of the loading sets. */
  lemma FakeLayoutRefs<S>(sprites: seq<seq<S>>, loading: Option<seq<seq<S>>>)
    requires sprites != []
    ensures var l := FakeLayout(sprites, loading).value;
      var more := if loading.None? then [] else loading.value;
      l.refs[0] == Action1(l.ent1[0], |sprites|, |sprites[0]|) &&
      l.refs[1..] == Alternatives(sprites + more) &&
      |l.refs| == 1 + Total(sprites + more)
  {
    var more := if loading.None? then [] else loading.value;
    var l := FakeLayout(sprites, loading).value;
    var head := Action1(l.ent1[0], |sprites|, |sprites[0]|);
    var alts := Alternatives(sprites + more);
    assert l.refs == [head] + alts by {
      AlternativesAppend(sprites, more);
    }
    assert |alts| == Total(sprites + more) by {
      AlternativesLength(sprites + more);
    }
  }

  /** An empty (rather than absent) loading list gives an empty second tuple:
      `None` and `[]` are not the same. */
  lemma EmptyLoadingDiffers<S>(sprites: seq<seq<S>>)
    requires sprites != []
    ensures FakeLayout(sprites, Some([])).value.ent2 == []
    ensures FakeLayout(sprites, None).value.ent2 == FakeLayout(sprites, None).value.ent1 != []
  {
  }
}
