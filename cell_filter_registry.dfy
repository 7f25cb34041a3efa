/** `CellFilterRegistry`: the distinct cell filters of an effect tree, as
    strings, each with a short identifier for the diagnostic chart. Index 0
    is always "all"; the rest are registered in preorder, first occurrence
    first. */
module CellFilterRegistries {
  import opened Wrappers
  import opened Format
  import opened CellFilters
  import opened Sorting
  import opened EffectSpans

  /** `format_id`: "    *" for the default filter, "cf-" and at least two
      digits otherwise. */
  function FormatId(idx: nat): (s: string)
    ensures idx == 0 ==> s == "    *"
    ensures idx > 0 ==> s == "cf-" + ZeroPad2(idx)
  {
    if idx == 0 then "    *" else "cf-" + ZeroPad2(idx)
  }

  /** Distinct indices get distinct identifiers. */
  lemma FormatIdInjective(i: nat, j: nat)
    requires FormatId(i) == FormatId(j)
    ensures i == j
  {
    // "    *" starts with a blank and "cf-..." does not
    assert (FormatId(i)[0] == ' ') == (i == 0);
    assert (FormatId(j)[0] == ' ') == (j == 0);
    if i > 0 {
      var a, b := ZeroPad2(i), ZeroPad2(j);
      assert a == FormatId(i)[3..] && b == FormatId(j)[3..];
      // a single digit is padded with '0'; a longer number never starts with one
      assert (a[0] == '0') == (i < 10);
      assert (b[0] == '0') == (j < 10);
      if i < 10 {
        assert a[1] == b[1];
      } else {
        NatToStringInjective(i, j);
      }
    }
  }

  /** `register` on a list: append s unless it is already there. */
  function AddAbsent(fs: seq<string>, s: string): (r: seq<string>)
  {
    if s in fs then fs else fs + [s]
  }

  /** The list after registering each of strs, in order, onto initial. */
  function Registered(initial: seq<string>, strs: seq<string>): seq<string>
  {
    if strs == [] then initial
    else AddAbsent(Registered(initial, strs[..|strs| - 1]), strs[|strs| - 1])
  }

  /** The filter strings of the spans, in order. */
  function FilterStrings(spans: seq<Span>, o: Oracles): (r: seq<string>)
    ensures |r| == |spans| && forall i | 0 <= i < |spans| :: r[i] == ToString(spans[i].filter, o)
  {
    seq(|spans|, i requires 0 <= i < |spans| => ToString(spans[i].filter, o))
  }

  /** Registering keeps the list free of duplicates, holds exactly the
      strings seen, and only ever appends: what was there stays in front. */
  lemma {:induction false} RegisteredProps(initial: seq<string>, strs: seq<string>)
    requires Distinct(initial)
    ensures var r := Registered(initial, strs);
            && Distinct(r)
            && (forall s :: s in r <==> s in initial || s in strs)
            && |initial| <= |r| && r[..|initial|] == initial
  {
    if strs != [] {
      var prev := strs[..|strs| - 1];
      RegisteredProps(initial, prev);
      var r := Registered(initial, strs);
      assert strs == prev + [strs[|strs| - 1]];
      assert r[..|initial|] == Registered(initial, prev)[..|initial|];
    }
  }

  /** Registering more strings extends the list: an identifier handed out
      for the first k strings keeps its index after the rest. */
  lemma {:induction false} RegisteredExtends(initial: seq<string>, strs: seq<string>, k: nat)
    requires k <= |strs|
    ensures var r := Registered(initial, strs);
            var rk := Registered(initial, strs[..k]);
            |rk| <= |r| && r[..|rk|] == rk
    decreases |strs| - k
  {
    if k < |strs| {
      RegisteredExtends(initial, strs[..|strs| - 1], k);
      assert strs[..|strs| - 1][..k] == strs[..k];
    } else {
      assert strs[..k] == strs;
    }
  }

  class CellFilterRegistry {
    /** The registered filter strings; the index of each is its identifier. */
    var filters: seq<string>

    ghost predicate Valid()
      reads this
    {
      |filters| >= 1 && filters[0] == "all" && Distinct(filters)
    }

    /** `from`: "all" first, then the filter of every span of the tree in
        preorder, each string once. */
    constructor From(root: Span, o: Oracles)
      ensures filters == Registered(["all"], FilterStrings(Preorder(root), o))
      ensures Valid()
      ensures forall s :: s in filters <==> s == "all" || s in FilterStrings(Preorder(root), o)
    {
      filters := [ToString(All, o)];
      new;
      var spans := Collect(root);
      for i := 0 to |spans|
        invariant filters == Registered(["all"], FilterStrings(spans[..i], o))
        invariant Valid()
      {
        Register(spans[i].filter, o);
        assert FilterStrings(spans[..i + 1], o)[..i] == FilterStrings(spans[..i], o);
      }
      assert spans[..|spans|] == spans;
      RegisteredProps(["all"], FilterStrings(spans, o));
    }

    /** `register`: the filter's string is appended unless it is there. */
    method Register(f: CellFilter, o: Oracles)
      requires Valid()
      modifies this
      ensures filters == AddAbsent(old(filters), ToString(f, o))
      ensures Valid()
    {
      var s := ToString(f, o);
      if s !in filters {
        filters := filters + [s];
      }
    }

    /** `id_of`: the identifier of the filter's index; None where the
        source's `unwrap` panics, for a filter that was never registered. */
    function IdOf(f: CellFilter, o: Oracles): (r: Option<string>)
      reads this
      ensures r.Some? <==> ToString(f, o) in filters
      ensures r.Some? ==> exists i | 0 <= i < |filters| :: filters[i] == ToString(f, o) && r.value == FormatId(i)
    {
      var s := ToString(f, o);
      if s in filters then Some(FormatId(FirstIndex(filters, s))) else None
    }

    /** `entries`: one (identifier, filter) pair per registered filter, in
        registration order. */
    function Entries(): (r: seq<(string, string)>)
      reads this
      ensures |r| == |filters|
      ensures forall i | 0 <= i < |r| :: r[i].1 == filters[i]
    {
      seq(|filters|, i requires 0 <= i < |filters| reads this => (FormatId(i), filters[i]))
    }

    /** The default filter always has the identifier "    *". */
    lemma IdOfAll(o: Oracles)
      requires Valid()
      ensures IdOf(All, o) == Some("    *")
    {
      assert ToString(All, o) == filters[0];
    }

    /** Two registered filters share an identifier exactly when their
        strings are equal. */
    lemma IdOfDistinguishes(f: CellFilter, g: CellFilter, o: Oracles)
      requires Valid() && IdOf(f, o).Some? && IdOf(g, o).Some?
      ensures IdOf(f, o) == IdOf(g, o) <==> ToString(f, o) == ToString(g, o)
    {
      var i := FirstIndex(filters, ToString(f, o));
      var j := FirstIndex(filters, ToString(g, o));
      if IdOf(f, o) == IdOf(g, o) {
        FormatIdInjective(i, j);
      }
    }

    /** Each entry carries the identifier `id_of` gives its filter. */
    lemma EntriesMatchIdOf(f: CellFilter, o: Oracles, i: nat)
      requires Valid() && i < |filters| && filters[i] == ToString(f, o)
      ensures IdOf(f, o) == Some(Entries()[i].0)
    {
      FirstIndexOfDistinct(filters, i);
    }
  }
}
