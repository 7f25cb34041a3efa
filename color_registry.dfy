/** `ColorRegistry` (and `ColorResolver`, the same code under another
    name): one colour per effect identifier of a tree, for the diagnostic
    chart. An identifier is an effect name with one "_out", "_in", "_to" or
    "_from" suffix removed, so the in and out variants of an effect share a
    colour. The colours are evenly spaced hues, shuffled. */
module ColorRegistries {
  import opened Wrappers
  import opened Terminal
  import opened Sorting
  import opened EffectSpans
  import opened SimpleRngs

  /** `str::strip_suffix`. */
  function StripSuffix(s: string, suffix: string): (r: Option<string>)
    ensures r.Some? <==> |suffix| <= |s| && s[|s| - |suffix|..] == suffix
    ensures r.Some? ==> r.value + suffix == s
  {
    if |suffix| <= |s| && s[|s| - |suffix|..] == suffix then Some(s[..|s| - |suffix|]) else None
  }

  /** `id_of`: the name with the first of "_out", "_in", "_to", "_from"
      it ends with removed, or the name itself. */
  function IdOf(effect: string): (r: string)
    ensures |r| <= |effect| && effect[..|r|] == r
    ensures StripSuffix(effect, "_out").Some? ==> r + "_out" == effect
  {
    var stripped := StripSuffix(effect, "_out");
    var stripped := if stripped.Some? then stripped else StripSuffix(effect, "_in");
    var stripped := if stripped.Some? then stripped else StripSuffix(effect, "_to");
    var stripped := if stripped.Some? then stripped else StripSuffix(effect, "_from");
    stripped.GetOr(effect)
  }

  /** The four variants of an effect share its identifier. */
  lemma VariantsShareId(base: string)
    ensures IdOf(base + "_out") == base && IdOf(base + "_in") == base
    ensures IdOf(base + "_to") == base && IdOf(base + "_from") == base
  {
    IdOfOut(base);
    IdOfIn(base);
    IdOfTo(base);
    IdOfFrom(base);
  }

  lemma IdOfOut(base: string)
    ensures IdOf(base + "_out") == base
  {
    assert (base + "_out")[..|base|] == base;
  }

  lemma IdOfIn(base: string)
    ensures IdOf(base + "_in") == base
  {
    var n := |base|;
    // "_in" is not the tail of "_out"
    assert StripSuffix(base + "_in", "_out").None? by {
      if n >= 1 { assert (base + "_in")[n - 1..][2] == 'i'; }
    }
    assert (base + "_in")[..n] == base;
  }

  lemma IdOfTo(base: string)
    ensures IdOf(base + "_to") == base
  {
    var n := |base|;
    assert StripSuffix(base + "_to", "_out").None? by {
      if n >= 1 { assert (base + "_to")[n - 1..][1] == '_'; }
    }
    assert (base + "_to")[n..] == "_to" && (base + "_to")[n..][1] == 't';
    assert (base + "_to")[..n] == base;
  }

  lemma IdOfFrom(base: string)
    ensures IdOf(base + "_from") == base
  {
    var n := |base|;
    assert (base + "_from")[n + 1..] == "from" && (base + "_from")[n + 2..] == "rom";
    assert (base + "_from")[..n] == base;
  }

  /** At most one suffix is removed: the identifier of "fade_in_out" is
      "fade_in". */
  lemma OneSuffixOnly()
    ensures IdOf("fade_in_out") == "fade_in"
    ensures IdOf("dissolve") == "dissolve"
  {
    VariantsShareId("fade_in");
    assert "fade_in_out" == "fade_in" + "_out";
    assert StripSuffix("dissolve", "_out").None? && StripSuffix("dissolve", "_in").None?;
    assert StripSuffix("dissolve", "_to").None? && StripSuffix("dissolve", "_from").None?;
  }

  /** The identifiers of the spans, sorted and without duplicates: the
      iteration order of the `BTreeSet` the source collects them into. */
  function Identifiers(spans: seq<Span>): (r: seq<string>)
    ensures forall id :: id in r <==> exists i | 0 <= i < |spans| :: IdOf(spans[i].name) == id
  {
    var ids := seq(|spans|, i requires 0 <= i < |spans| => IdOf(spans[i].name));
    assert forall i | 0 <= i < |spans| :: ids[i] == IdOf(spans[i].name);
    SortDedup(ids, (a: string, b: string) => LexLess(a, b))
  }

  /** The identifiers are in strictly increasing string order, so each
      appears once. */
  lemma IdentifiersSorted(spans: seq<Span>)
    ensures StrictlySorted(Identifiers(spans), (a: string, b: string) => LexLess(a, b))
    ensures Distinct(Identifiers(spans))
  {
    var ids := seq(|spans|, i requires 0 <= i < |spans| => IdOf(spans[i].name));
    LexIsStrictOrder();
    SortDedupSorted(ids, (a: string, b: string) => LexLess(a, b));
    SortedDistinct(Identifiers(spans), (a: string, b: string) => LexLess(a, b));
  }

  /** The asserted ranges: hue within [0, 360], saturation and lightness
      within [0, 100]. */
  predicate RangesOk(hueStart: real, hueEnd: real, saturation: real, lightness: real) {
    && hueStart >= 0.0 && hueEnd <= 360.0
    && 0.0 <= saturation <= 100.0
    && 0.0 <= lightness <= 100.0
  }

  /** The hue of colour idx of len: evenly spaced from the start of the
      range. */
  function Hue(hueStart: real, hueEnd: real, idx: nat, len: nat): (h: real)
    requires idx < len
    ensures hueStart <= hueEnd ==> hueStart <= h < hueEnd || (hueStart == hueEnd && h == hueStart)
  {
    var w := hueEnd - hueStart;
    var q := w * idx as real / len as real;
    SpreadBelow(w, idx, len);
    assert hueStart <= hueEnd ==> 0.0 <= q && (q < w || (w == 0.0 && q == 0.0));
    hueStart + q
  }

  /** Slot idx of len lies in the first idx/len of a span of width w. */
  lemma SpreadBelow(w: real, idx: nat, len: nat)
    requires idx < len
    ensures 0.0 <= w ==> 0.0 <= w * idx as real / len as real
    ensures 0.0 < w ==> w * idx as real / len as real < w
    ensures w == 0.0 ==> w * idx as real / len as real == 0.0
  {
    var n := len as real;
    var k := idx as real;
    var q := w * k / n;
    assert q * n == w * k;
    if 0.0 <= w {
      assert 0.0 <= q * n;
    }
    if 0.0 < w {
      assert w * (n - k) > 0.0;
      assert (w - q) * n == w * n - q * n;
      assert 0.0 < (w - q) * n;
    }
  }


  /** The colours before the shuffle; `Color::from_hsl` is a parameter. */
  function Palette(len: nat, hueStart: real, hueEnd: real, saturation: real, lightness: real,
                   hsl: (real, real, real) -> Color): (r: seq<Color>)
    ensures |r| == len
    ensures forall i | 0 <= i < len :: r[i] == hsl(Hue(hueStart, hueEnd, i, len), saturation, lightness)
  {
    seq(len, i requires 0 <= i < len => hsl(Hue(hueStart, hueEnd, i, len), saturation, lightness))
  }

  function Colors(table: seq<(string, Color)>): (r: seq<Color>)
    ensures |r| == |table| && forall i | 0 <= i < |table| :: r[i] == table[i].1
  {
    seq(|table|, i requires 0 <= i < |table| => table[i].1)
  }

  /** `iter().find(|(label, _)| label == id)`: the colour of the first pair
      with that label. */
  function Lookup(table: seq<(string, Color)>, id: string): (r: Option<Color>)
    ensures r.Some? <==> exists i | 0 <= i < |table| :: table[i].0 == id
    ensures r.Some? ==> exists i | 0 <= i < |table| :: table[i] == (id, r.value)
  {
    if table == [] then None
    else if table[0].0 == id then Some(table[0].1)
    else
      var r := Lookup(table[1..], id);
      assert forall i | 1 <= i < |table| :: table[i] == table[1..][i - 1];
      r
  }

  /** The body of `from`: the range assertions (None where they panic),
      the identifiers, the palette shuffled in place by a generator seeded
      with the given value, and the pairs of identifier and colour. */
  method ColorTable(root: Span, hueStart: real, hueEnd: real, saturation: real, lightness: real,
                    hsl: (real, real, real) -> Color, seed: u32)
    returns (table: Option<seq<(string, Color)>>)
    requires |Identifiers(Preorder(root))| < USIZE_LIMIT
    ensures table.None? <==> !RangesOk(hueStart, hueEnd, saturation, lightness)
    ensures table.Some? ==>
      var ids := Identifiers(Preorder(root));
      var palette := Palette(|ids|, hueStart, hueEnd, saturation, lightness, hsl);
      && |table.value| == |ids|
      && (forall i | 0 <= i < |ids| :: table.value[i].0 == ids[i])
      && Colors(table.value) == ShuffleFrom(palette, 0, seed).0
      && multiset(Colors(table.value)) == multiset(palette)
  {
    if !RangesOk(hueStart, hueEnd, saturation, lightness) {
      return None;
    }
    var spans := Collect(root);
    var ids := Identifiers(spans);
    var len := |ids|;
    var colors := new Color[len](i requires 0 <= i < len => hsl(Hue(hueStart, hueEnd, i, len), saturation, lightness));
    assert colors[..] == Palette(len, hueStart, hueEnd, saturation, lightness, hsl);
    var rng := new SimpleRng(seed);
    Shuffle(colors, rng);
    var shuffled := colors[..];
    var pairs := seq(len, i requires 0 <= i < len => (ids[i], shuffled[i]));
    assert Colors(pairs) == shuffled;
    table := Some(pairs);
  }

  /** The identifier column of the table. */
  function Labels(table: seq<(string, Color)>): (r: seq<string>)
    ensures |r| == |table| && forall i | 0 <= i < |table| :: r[i] == table[i].0
  {
    seq(|table|, i requires 0 <= i < |table| => table[i].0)
  }

  class ColorRegistry {
    /** The pairs of identifier and colour, identifiers in increasing
        order. */
    var effectToColor: seq<(string, Color)>

    /** The identifiers are strictly increasing, so each appears once. */
    ghost predicate Valid()
      reads this
    {
      StrictlySorted(Labels(effectToColor), (a: string, b: string) => LexLess(a, b))
    }

    constructor (table: seq<(string, Color)>)
      ensures effectToColor == table
    {
      effectToColor := table;
    }

    /** `color_of`: the colour of the name's identifier; None where the
        source's `expect` panics, for an identifier not in the tree. */
    function ColorOf(effect: string): (r: Option<Color>)
      reads this
      ensures r.Some? <==> exists i | 0 <= i < |effectToColor| :: effectToColor[i].0 == IdOf(effect)
      ensures r.Some? ==> exists i | 0 <= i < |effectToColor| :: effectToColor[i] == (IdOf(effect), r.value)
    {
      Lookup(effectToColor, IdOf(effect))
    }

    /** In a valid registry each identifier has one pair, so `color_of`
        gives a colour exactly when the table pairs it with the name's
        identifier. */
    lemma ColorOfIsThePair(effect: string, c: Color)
      requires Valid()
      ensures ColorOf(effect) == Some(c)
          <==> exists i | 0 <= i < |effectToColor| :: effectToColor[i] == (IdOf(effect), c)
    {
      var id := IdOf(effect);
      if i :| 0 <= i < |effectToColor| && effectToColor[i] == (id, c) {
        var j :| 0 <= j < |effectToColor| && effectToColor[j] == (id, ColorOf(effect).value);
        LexIrreflexive(id);
        assert Labels(effectToColor)[i] == id == Labels(effectToColor)[j];
      }
    }
  }

  /** `color_registry` (the builder) and `from`: a registry whose colours
      cover every effect of the tree, in and out variants alike, and no
      identifier outside it; None where a range assertion panics. */
  method NewColorRegistry(root: Span, hueStart: real, hueEnd: real, saturation: real, lightness: real,
                          hsl: (real, real, real) -> Color, seed: u32)
    returns (r: Option<ColorRegistry>)
    requires |Identifiers(Preorder(root))| < USIZE_LIMIT
    ensures r.None? <==> !RangesOk(hueStart, hueEnd, saturation, lightness)
    ensures r.Some? ==> fresh(r.value) && r.value.Valid()
    ensures r.Some? ==> forall name :: r.value.ColorOf(name).Some? <==> IdOf(name) in Identifiers(Preorder(root))
    ensures r.Some? ==> forall k | 0 <= k < |Preorder(root)| :: r.value.ColorOf(Preorder(root)[k].name).Some?
  {
    var table := ColorTable(root, hueStart, hueEnd, saturation, lightness, hsl, seed);
    if table.None? {
      return None;
    }
    var registry := new ColorRegistry(table.value);
    ghost var ids := Identifiers(Preorder(root));
    assert forall id :: (exists i | 0 <= i < |table.value| :: table.value[i].0 == id) <==> id in ids by {
      forall id | id in ids
        ensures exists i | 0 <= i < |table.value| :: table.value[i].0 == id
      {
        var i :| 0 <= i < |ids| && ids[i] == id;
        assert table.value[i].0 == id;
      }
    }
    IdentifiersSorted(Preorder(root));
    assert Labels(table.value) == ids;
    r := Some(registry);
  }
}
