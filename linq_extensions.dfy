/**
 * The sequence helpers of the extension library: null-dropping filters,
 * flattening, appending a range to a collection, and the membership tests
 * `ContainsAny`, `ContainsAll` and `ContainsOnly`. A null reference, or an
 * empty `Nullable<T>`, is `None`.
 */
module LinqExtensions {
  import opened Wrappers
  import opened Framework

  /** `source.Where(x => x != null && keep(x))`, unwrapped: the kept present values, in order. */
  function Values<T(!new)>(source: seq<Option<T>>, keep: T -> bool): (r: seq<T>)
    ensures |r| <= |source|
    ensures forall x :: x in r <==> Some(x) in source && keep(x)
  {
    if source == [] then []
    else
      var rest := Values(source[1..], keep);
      assert forall x :: Some(x) in source <==> Some(x) == source[0] || Some(x) in source[1..];
      if source[0].Some? && keep(source[0].value) then [source[0].value] + rest else rest
  }

  /** Filtering a concatenation filters each part and keeps their order. */
  lemma {:induction false} ValuesConcat<T(!new)>(a: seq<Option<T>>, b: seq<Option<T>>, keep: T -> bool)
    ensures Values(a + b, keep) == Values(a, keep) + Values(b, keep)
  {
    if a != [] {
      assert (a + b)[1..] == a[1..] + b;
      ValuesStep(a + b, keep);
      ValuesStep(a, keep);
      ValuesConcat(a[1..], b, keep);
    } else {
      assert a + b == b;
    }
  }

  /** A sequence of present values that all pass the filter comes through whole and in order. */
  lemma ValuesOfPresent<T(!new)>(s: seq<T>, keep: T -> bool)
    requires forall i | 0 <= i < |s| :: keep(s[i])
    ensures Values(seq(|s|, i requires 0 <= i < |s| => Some(s[i])), keep) == s
  {
    ValuesOfWrapped(seq(|s|, i requires 0 <= i < |s| => Some(s[i])), s, keep);
  }

  /** `ValuesOfPresent` for any sequence that wraps `s` position by position. */
  lemma {:induction false} ValuesOfWrapped<T(!new)>(w: seq<Option<T>>, s: seq<T>, keep: T -> bool)
    requires |w| == |s|
    requires forall i | 0 <= i < |s| :: w[i] == Some(s[i]) && keep(s[i])
    ensures Values(w, keep) == s
  {
    if s != [] {
      ValuesStep(w, keep);
      ValuesOfWrapped(w[1..], s[1..], keep);
      assert s == [s[0]] + s[1..];
    }
  }

  /** One step of `Values`: the head, if present and kept, then the values of the rest. */
  lemma ValuesStep<T(!new)>(source: seq<Option<T>>, keep: T -> bool)
    requires source != []
    ensures Values(source, keep)
      == (if source[0].Some? && keep(source[0].value) then [source[0].value] else []) + Values(source[1..], keep)
  {
  }

  /** `WhereNotNull`, for references and for `Nullable<T>` alike: the present values in order; a null source gives nothing. */
  function WhereNotNull<T(!new)>(source: Option<seq<Option<T>>>): (r: seq<T>)
    ensures source.None? ==> r == []
    ensures forall x :: x in r <==> source.Some? && Some(x) in source.value
  {
    if source.None? then [] else Values(source.value, KeepAll)
  }

  /** The test of `WhereNotNull`: every present value passes. */
  predicate KeepAll<T>(x: T)
  {
    true
  }

  /** The test of `WhereNotNullOrEmpty`. */
  predicate NotEmpty(x: string)
  {
    !IsNullOrEmpty(Some(x))
  }

  /** The test of `WhereNotNullOrWhitespace`. */
  predicate NotWhiteSpace(x: string)
  {
    !IsNullOrWhiteSpace(Some(x))
  }

  /** `WhereNotNullOrEmpty`: drops null and `""`, keeps everything else, including whitespace. */
  function WhereNotNullOrEmpty(source: Option<seq<Option<string>>>): (r: seq<string>)
    ensures source.None? ==> r == []
    ensures forall x :: x in r <==> source.Some? && Some(x) in source.value && x != ""
  {
    if source.None? then [] else Values(source.value, NotEmpty)
  }

  /** `WhereNotNullOrWhitespace`: also drops strings made only of whitespace. */
  function WhereNotNullOrWhitespace(source: Option<seq<Option<string>>>): (r: seq<string>)
    ensures source.None? ==> r == []
    ensures forall x :: x in r <==> source.Some? && Some(x) in source.value && !IsNullOrWhiteSpace(Some(x))
  {
    if source.None? then [] else Values(source.value, NotWhiteSpace)
  }

  /** What the whitespace filter keeps, the empty-string filter keeps too; a lone space separates the two. */
  lemma WhitespaceFilterIsStricter(source: Option<seq<Option<string>>>)
    ensures forall x | x in WhereNotNullOrWhitespace(source) :: x in WhereNotNullOrEmpty(source)
    ensures source == Some([Some(" ")]) ==> WhereNotNullOrEmpty(source) == [" "] && WhereNotNullOrWhitespace(source) == []
  {
    if source == Some([Some(" ")]) {
      assert IsWhiteSpace(" "[0]);
      assert Values([Some(" ")], NotEmpty) == [" "];
    }
  }

  /** The three filters keep the original order: filtering a concatenation filters each part, in order. */
  lemma WhereNotNullConcat<T(!new)>(a: seq<Option<T>>, b: seq<Option<T>>)
    ensures WhereNotNull(Some(a + b)) == WhereNotNull(Some(a)) + WhereNotNull(Some(b))
  {
    ValuesConcat(a, b, KeepAll);
  }

  /** `WhereNotNullOrEmpty` keeps the original order. */
  lemma WhereNotNullOrEmptyConcat(a: seq<Option<string>>, b: seq<Option<string>>)
    ensures WhereNotNullOrEmpty(Some(a + b)) == WhereNotNullOrEmpty(Some(a)) + WhereNotNullOrEmpty(Some(b))
  {
    ValuesConcat(a, b, NotEmpty);
  }

  /** `WhereNotNullOrWhitespace` keeps the original order. */
  lemma WhereNotNullOrWhitespaceConcat(a: seq<Option<string>>, b: seq<Option<string>>)
    ensures WhereNotNullOrWhitespace(Some(a + b)) == WhereNotNullOrWhitespace(Some(a)) + WhereNotNullOrWhitespace(Some(b))
  {
    ValuesConcat(a, b, NotWhiteSpace);
  }

  /** With no null in the source, `WhereNotNull` gives every element, in order and with repeats. */
  lemma WhereNotNullOfPresent<T(!new)>(s: seq<T>)
    ensures WhereNotNull(Some(seq(|s|, i requires 0 <= i < |s| => Some(s[i])))) == s
  {
    ValuesOfPresent(s, KeepAll);
  }

  /** `SelectMany(item => item)`: the inner sequences concatenated in order. */
  function SelectMany<T(!new)>(source: seq<seq<T>>): (r: seq<T>)
    ensures forall x :: x in r <==> exists i | 0 <= i < |source| :: x in source[i]
  {
    if source == [] then []
    else
      var rest := SelectMany(source[1..]);
      assert forall j | 0 <= j < |source| - 1 :: source[1..][j] == source[j + 1];
      source[0] + rest
  }

  /** Flattening a concatenation flattens each part: nothing is reordered across inner sequences. */
  lemma {:induction false} SelectManyConcat<T(!new)>(a: seq<seq<T>>, b: seq<seq<T>>)
    ensures SelectMany(a + b) == SelectMany(a) + SelectMany(b)
  {
    if a != [] {
      assert (a + b)[1..] == a[1..] + b;
      SelectManyConcat(a[1..], b);
    } else {
      assert a + b == b;
    }
  }

  /** `AddRange`: adds the items of `range` to the list one by one, in order. */
  method AddRange<T>(collection: List<T>, range: seq<T>)
    modifies collection
    ensures collection.elements == old(collection.elements) + range
  {
    var i := 0;
    while i < |range|
      invariant 0 <= i <= |range|
      invariant collection.elements == old(collection.elements) + range[..i]
    {
      collection.Add(range[i]);
      assert range[..i + 1] == range[..i] + [range[i]];
      i := i + 1;
    }
    assert range[..i] == range;
  }

  /** `args.Any(source.Contains)`: some argument occurs in the source. */
  function ContainsAny<T(==)>(source: seq<T>, args: seq<T>): (r: bool)
    ensures r <==> exists i | 0 <= i < |args| :: args[i] in source
  {
    if args == [] then false
    else args[0] in source || ContainsAny(source, args[1..])
  }

  /** `args.All(source.Contains)`: every argument occurs in the source; vacuously true for no arguments. */
  function ContainsAll<T(==)>(source: seq<T>, args: seq<T>): (r: bool)
    ensures r <==> forall i | 0 <= i < |args| :: args[i] in source
  {
    if args == [] then true
    else args[0] in source && ContainsAll(source, args[1..])
  }

  /** `source.Except(args)`: the distinct source elements that are not arguments. */
  function Except<T(==,!new)>(source: seq<T>, args: seq<T>): (r: set<T>)
    ensures forall x :: x in r <==> x in source && x !in args
  {
    set x | x in source && x !in args
  }

  /** `ContainsOnly`: equal counts, and no source element outside the arguments. */
  function ContainsOnly<T(==,!new)>(source: seq<T>, args: seq<T>): (r: bool)
    ensures r <==> |source| == |args| && forall i | 0 <= i < |source| :: source[i] in args
  {
    if |args| != |source| then false
    else
      assert forall i | 0 <= i < |source| :: source[i] !in args ==> source[i] in Except(source, args);
      Except(source, args) == {}
  }

  /** After `AddRange`, the collection contains the whole range, and more than the range when it had elements before. */
  lemma AddRangeContainsAll<T(!new)>(prior: seq<T>, range: seq<T>)
    ensures ContainsAll(prior + range, range)
    ensures prior != [] ==> !ContainsOnly(prior + range, range)
  {
    assert forall i | 0 <= i < |range| :: range[i] == (prior + range)[|prior| + i];
  }

  /** With at least one argument, containing all of them implies containing one of them. */
  lemma AllImpliesAny<T>(source: seq<T>, args: seq<T>)
    requires args != []
    ensures ContainsAll(source, args) ==> ContainsAny(source, args)
  {
    if ContainsAll(source, args) {
      assert args[0] in source;
    }
  }

  /** `ContainsOnly` is not equality of multisets: repeated elements can be swapped for others. */
  lemma ContainsOnlyIsNotPermutation()
    ensures ContainsOnly([1, 1, 2], [1, 2, 2]) && multiset([1, 1, 2]) != multiset([1, 2, 2])
  {
    assert multiset([1, 1, 2])[1] == 2;
  }

  /** `ContainsOnly` is not symmetric: `[1, 1]` only holds arguments of `[1, 2]`, but not the converse. */
  lemma ContainsOnlyIsNotSymmetric()
    ensures ContainsOnly([1, 1], [1, 2]) && !ContainsOnly([1, 2], [1, 1])
  {
    assert [1, 2][1] == 2;
  }
}
