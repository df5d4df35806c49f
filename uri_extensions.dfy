/**
 * The query-string side of the URI helpers: reading the query into a list
 * of key/value pairs, appending pairs, removing pairs or keys, writing the
 * list back as `key=value` items joined by `&`, and the camel-case
 * parameter-name formatter. A query is its text without the leading `?`;
 * values are the strings the query holds.
 */
module UriExtensions {
  import opened Wrappers
  import opened Framework
  import LinqExtensions

  /** A query parameter: its key and its value. */
  type Pair = (string, string)

  // ---------------------------------------------------------------------------
  // Reading and writing the query
  // ---------------------------------------------------------------------------

  /** Text that can stand as a key or value and survive a round trip: non-empty, with no `&`, `=` or `?`. */
  predicate IsQueryText(t: string)
  {
    t != "" && '&' !in t && '=' !in t && '?' !in t
  }

  /** Every key and value of `pairs` is query text. */
  predicate WellFormed(pairs: seq<Pair>)
  {
    forall i | 0 <= i < |pairs| :: IsQueryText(pairs[i].0) && IsQueryText(pairs[i].1)
  }

  /** `"{0}={1}".With(x.Key, x.Value)`. */
  function Item(p: Pair): string
  {
    p.0 + "=" + p.1
  }

  /** `string.Join("&", query.Select(...))`: the text the query is set to. */
  function Serialize(pairs: seq<Pair>): string
  {
    Join("&", seq(|pairs|, i requires 0 <= i < |pairs| => Item(pairs[i])))
  }

  /** One segment split on `=` without empty entries; a segment with fewer than two pieces fails on `x[1]`. */
  function ParsePair(segment: string): (r: Result<Pair, Exception>)
    ensures r.Success? <==> |SplitRemoveEmpty(segment, '=')| >= 2
    ensures r.Success? ==> r.value.0 != "" && '=' !in r.value.0 && forall c | c in r.value.0 :: c in segment
    ensures r.Success? ==> r.value.1 != "" && '=' !in r.value.1 && forall c | c in r.value.1 :: c in segment
  {
    var parts := SplitRemoveEmpty(segment, '=');
    if |parts| < 2 then Failure(IndexOutOfRange("Index was outside the bounds of the array."))
    else Success((parts[0], parts[1]))
  }

  /** The segments parsed in order; the first malformed one aborts the whole list. */
  function ParseSegments(segments: seq<string>): (r: Result<seq<Pair>, Exception>)
    ensures r.Success? <==> forall i | 0 <= i < |segments| :: ParsePair(segments[i]).Success?
    ensures r.Success? ==> |r.value| == |segments| && forall i | 0 <= i < |segments| :: ParsePair(segments[i]) == Success(r.value[i])
  {
    if segments == [] then Success([])
    else match ParsePair(segments[0])
      case Failure(e) => Failure(e)
      case Success(p) =>
        var rest := ParseSegments(segments[1..]);
        ParseTail(segments, p, rest);
        if rest.Failure? then rest else Success([p] + rest.value)
  }

  /** The step of `ParseSegments`: a parsed head joins the parse of the tail. */
  lemma ParseTail(segments: seq<string>, p: Pair, rest: Result<seq<Pair>, Exception>)
    requires segments != [] && ParsePair(segments[0]) == Success(p)
    requires rest.Success? <==> forall i | 0 <= i < |segments| - 1 :: ParsePair(segments[1..][i]).Success?
    requires rest.Success? ==>
      |rest.value| == |segments| - 1 && forall i | 0 <= i < |segments| - 1 :: ParsePair(segments[1..][i]) == Success(rest.value[i])
    ensures rest.Success? <==> forall i | 0 <= i < |segments| :: ParsePair(segments[i]).Success?
    ensures rest.Success? ==> forall i | 0 <= i < |segments| :: ParsePair(segments[i]) == Success(([p] + rest.value)[i])
  {
    assert forall i | 1 <= i < |segments| :: segments[i] == segments[1..][i - 1];
  }

  /** `GetQueryParameters`: delete every `?`, split on `&` without empty entries, then parse each segment. */
  function ParseQuery(query: string): Result<seq<Pair>, Exception>
  {
    ParseSegments(SplitRemoveEmpty(RemoveChar(query, '?'), '&'))
  }

  /** A query that parses yields well-formed pairs. */
  lemma ParsedWellFormed(query: string)
    ensures ParseQuery(query).Success? ==> WellFormed(ParseQuery(query).value)
  {
    var text := RemoveChar(query, '?');
    var segments := SplitRemoveEmpty(text, '&');
    if ParseQuery(query).Success? {
      var pairs := ParseQuery(query).value;
      forall i | 0 <= i < |pairs|
        ensures IsQueryText(pairs[i].0) && IsQueryText(pairs[i].1)
      {
        assert ParsePair(segments[i]) == Success(pairs[i]);
        assert forall c | c in segments[i] :: c in text;
      }
    }
  }

  /** The item of a well-formed pair splits back into its key and value. */
  lemma ParseItem(p: Pair)
    requires IsQueryText(p.0) && IsQueryText(p.1)
    ensures ParsePair(Item(p)) == Success(p)
  {
    assert Join("=", [p.0, p.1]) == Item(p);
    SplitRemoveEmptyJoin([p.0, p.1], '=');
  }

  /** Items of well-formed pairs parse back to the pairs. */
  lemma ParseItems(pairs: seq<Pair>)
    requires WellFormed(pairs)
    ensures ParseSegments(seq(|pairs|, i requires 0 <= i < |pairs| => Item(pairs[i]))) == Success(pairs)
  {
    var items := seq(|pairs|, i requires 0 <= i < |pairs| => Item(pairs[i]));
    forall i | 0 <= i < |items|
      ensures ParsePair(items[i]) == Success(pairs[i])
    {
      ParseItem(pairs[i]);
    }
    var r := ParseSegments(items);
    assert r.Success?;
    assert r.value == pairs;
  }

  /** Writing well-formed pairs and reading them back gives the same pairs, in the same order. */
  lemma QueryRoundTrip(pairs: seq<Pair>)
    requires WellFormed(pairs)
    ensures ParseQuery(Serialize(pairs)) == Success(pairs)
  {
    var items := seq(|pairs|, i requires 0 <= i < |pairs| => Item(pairs[i]));
    var text := Serialize(pairs);
    JoinChars("&", items);
    forall i | 0 <= i < |items|
      ensures items[i] != "" && '&' !in items[i] && '?' !in items[i]
    {
      assert items[i] == pairs[i].0 + "=" + pairs[i].1;
    }
    assert '?' !in text;
    SplitRemoveEmptyJoin(items, '&');
    ParseItems(pairs);
  }

  // ---------------------------------------------------------------------------
  // Appending
  // ---------------------------------------------------------------------------

  /** `With(IEnumerable)`: the existing pairs, then the new ones, written back. */
  method With(query: string, args: seq<Pair>) returns (r: Result<string, Exception>)
    ensures ParseQuery(query).Failure? ==> r == Failure(ParseQuery(query).error)
    ensures ParseQuery(query).Success? ==> r == Success(Serialize(ParseQuery(query).value + args))
  {
    var parsed := ParseQuery(query);
    if parsed.Failure? {
      return Failure(parsed.error);
    }
    var list := new List(parsed.value);
    LinqExtensions.AddRange(list, args);
    r := Success(Serialize(list.elements));
  }

  /** After `With`, reading the query gives the old pairs in order followed by the new ones. */
  lemma WithAppends(query: string, args: seq<Pair>)
    requires ParseQuery(query).Success? && WellFormed(args)
    ensures ParseQuery(Serialize(ParseQuery(query).value + args)) == Success(ParseQuery(query).value + args)
  {
    var old_ := ParseQuery(query).value;
    ParsedWellFormed(query);
    assert WellFormed(old_ + args) by {
      forall i | 0 <= i < |old_ + args|
        ensures IsQueryText((old_ + args)[i].0) && IsQueryText((old_ + args)[i].1)
      {
        if i >= |old_| {
          assert (old_ + args)[i] == args[i - |old_|];
        }
      }
    }
    QueryRoundTrip(old_ + args);
  }

  // ---------------------------------------------------------------------------
  // Removing pairs
  // ---------------------------------------------------------------------------

  /** The pairs of `s` other than `x`, in order. */
  function DropPair(s: seq<Pair>, x: Pair): (r: seq<Pair>)
    ensures forall y :: y in r <==> y in s && y != x
  {
    if s == [] then []
    else
      var rest := DropPair(s[1..], x);
      assert forall y :: y in s <==> y == s[0] || y in s[1..];
      (if s[0] == x then [] else [s[0]]) + rest
  }

  /** The pairs of `s` that are none of `args`, in order. */
  function DropPairs(s: seq<Pair>, args: seq<Pair>): (r: seq<Pair>)
    ensures forall y :: y in r <==> y in s && y !in args
  {
    if s == [] then []
    else
      var rest := DropPairs(s[1..], args);
      assert forall y :: y in s <==> y == s[0] || y in s[1..];
      (if s[0] in args then [] else [s[0]]) + rest
  }

  /** Removing the first `x` does not change what dropping every `x` leaves. */
  lemma {:induction false} RemoveFirstKeepsDrop(s: seq<Pair>, x: Pair)
    ensures DropPair(RemoveFirst(s, x), x) == DropPair(s, x)
  {
    if s != [] && s[0] != x {
      RemoveFirstKeepsDrop(s[1..], x);
      assert ([s[0]] + RemoveFirst(s[1..], x))[1..] == RemoveFirst(s[1..], x);
    }
  }

  /** Dropping a pair that is absent changes nothing. */
  lemma {:induction false} DropAbsent(s: seq<Pair>, x: Pair)
    requires x !in s
    ensures DropPair(s, x) == s
  {
    if s != [] {
      DropAbsent(s[1..], x);
      assert s == [s[0]] + s[1..];
    }
  }

  /** Dropping the arguments one at a time is dropping them all. */
  lemma {:induction false} DropPairsStep(s: seq<Pair>, args: seq<Pair>, x: Pair)
    ensures DropPair(DropPairs(s, args), x) == DropPairs(s, args + [x])
  {
    if s != [] {
      var head, tail := s[0], s[1..];
      DropPairsStep(tail, args, x);
      var rest := DropPairs(tail, args);
      assert head in args + [x] <==> head in args || head == x;
      assert DropPairs(s, args + [x]) == (if head in args + [x] then [] else [head]) + DropPairs(tail, args + [x]);
      if head !in args {
        assert DropPairs(s, args) == [head] + rest;
        assert ([head] + rest)[1..] == rest;
        assert DropPair([head] + rest, x) == (if head == x then [] else [head]) + DropPair(rest, x);
      } else {
        assert DropPairs(s, args) == [] + rest == rest;
      }
    }
  }

  /** `do result = query.Remove(obj); while (result);`: removes every occurrence of `x`. */
  method RemoveEvery(query: List<Pair>, x: Pair)
    modifies query
    ensures query.elements == DropPair(old(query.elements), x)
  {
    var removed := query.Remove(x);
    RemoveFirstKeepsDrop(old(query.elements), x);
    while removed
      invariant DropPair(query.elements, x) == DropPair(old(query.elements), x)
      invariant !removed ==> x !in query.elements
      decreases |query.elements| + (if removed then 1 else 0)
    {
      ghost var before := query.elements;
      removed := query.Remove(x);
      RemoveFirstKeepsDrop(before, x);
    }
    DropAbsent(query.elements, x);
  }

  /** `Remove(IEnumerable)`: every occurrence of each given pair is removed; the rest keep their order. */
  method RemovePairs(query: string, args: seq<Pair>) returns (r: Result<string, Exception>)
    ensures ParseQuery(query).Failure? ==> r == Failure(ParseQuery(query).error)
    ensures ParseQuery(query).Success? ==> r == Success(Serialize(DropPairs(ParseQuery(query).value, args)))
  {
    var parsed := ParseQuery(query);
    if parsed.Failure? {
      return Failure(parsed.error);
    }
    var list := new List(parsed.value);
    RemoveEachPair(list, args);
    r := Success(Serialize(list.elements));
  }

  /** The `foreach` over the pairs of `Remove(IEnumerable)`, each removed with its do-while loop. */
  method RemoveEachPair(query: List<Pair>, args: seq<Pair>)
    modifies query
    ensures query.elements == DropPairs(old(query.elements), args)
  {
    NoneDropped(query.elements);
    for i := 0 to |args|
      invariant query.elements == DropPairs(old(query.elements), args[..i])
    {
      RemoveEvery(query, args[i]);
      DropPairsStep(old(query.elements), args[..i], args[i]);
      assert args[..i + 1] == args[..i] + [args[i]];
    }
    assert args[..|args|] == args;
  }

  /** Dropping no pairs changes nothing. */
  lemma {:induction false} NoneDropped(s: seq<Pair>)
    ensures DropPairs(s, []) == s
  {
    if s != [] {
      NoneDropped(s[1..]);
      assert s == [s[0]] + s[1..];
    }
  }

  /** Dropping pairs that are all among the arguments leaves nothing; in particular, removing every pair of a query empties it. */
  lemma {:induction false} RemoveAllPairs(s: seq<Pair>, args: seq<Pair>)
    requires forall i | 0 <= i < |s| :: s[i] in args
    ensures DropPairs(s, args) == [] && Serialize(DropPairs(s, args)) == ""
  {
    if s != [] {
      RemoveAllPairs(s[1..], args);
    }
  }

  /** After removing pairs, reading the query back gives exactly the pairs that were kept. */
  lemma RemovePairsParses(query: string, args: seq<Pair>)
    requires ParseQuery(query).Success?
    ensures ParseQuery(Serialize(DropPairs(ParseQuery(query).value, args))) == Success(DropPairs(ParseQuery(query).value, args))
  {
    var kept := DropPairs(ParseQuery(query).value, args);
    ParsedWellFormed(query);
    assert WellFormed(kept) by {
      forall i | 0 <= i < |kept|
        ensures IsQueryText(kept[i].0) && IsQueryText(kept[i].1)
      {
        assert kept[i] in kept;
      }
    }
    QueryRoundTrip(kept);
  }

  // ---------------------------------------------------------------------------
  // Removing keys
  // ---------------------------------------------------------------------------

  /** `query.Find(x => x.Key == key)`: the first pair with that key, if any. */
  function FindKey(s: seq<Pair>, key: string): (r: Option<Pair>)
    ensures r.Some? ==> r.value in s && r.value.0 == key
    ensures r.None? <==> forall i | 0 <= i < |s| :: s[i].0 != key
  {
    if s == [] then None
    else if s[0].0 == key then Some(s[0])
    else
      var rest := FindKey(s[1..], key);
      assert forall i | 1 <= i < |s| :: s[i] == s[1..][i - 1];
      rest
  }

  /** The pairs of `s` whose key is not `key`, in order. */
  function DropKey(s: seq<Pair>, key: string): (r: seq<Pair>)
    ensures forall y :: y in r <==> y in s && y.0 != key
  {
    if s == [] then []
    else
      var rest := DropKey(s[1..], key);
      assert forall y :: y in s <==> y == s[0] || y in s[1..];
      (if s[0].0 == key then [] else [s[0]]) + rest
  }

  /** The pairs of `s` whose key is none of `keys`, in order. */
  function DropKeys(s: seq<Pair>, keys: seq<string>): (r: seq<Pair>)
    ensures forall y :: y in r <==> y in s && y.0 !in keys
  {
    if s == [] then []
    else
      var rest := DropKeys(s[1..], keys);
      assert forall y :: y in s <==> y == s[0] || y in s[1..];
      (if s[0].0 in keys then [] else [s[0]]) + rest
  }

  /** Removing one pair with the key does not change what dropping the key leaves. */
  lemma {:induction false} RemoveFirstKeepsDropKey(s: seq<Pair>, y: Pair, key: string)
    requires y.0 == key
    ensures DropKey(RemoveFirst(s, y), key) == DropKey(s, key)
  {
    if s != [] && s[0] != y {
      RemoveFirstKeepsDropKey(s[1..], y, key);
      assert ([s[0]] + RemoveFirst(s[1..], y))[1..] == RemoveFirst(s[1..], y);
    }
  }

  /** Dropping a key no pair has changes nothing. */
  lemma {:induction false} DropAbsentKey(s: seq<Pair>, key: string)
    requires forall i | 0 <= i < |s| :: s[i].0 != key
    ensures DropKey(s, key) == s
  {
    if s != [] {
      DropAbsentKey(s[1..], key);
      assert s == [s[0]] + s[1..];
    }
  }

  /** Dropping the keys one at a time is dropping them all. */
  lemma {:induction false} DropKeysStep(s: seq<Pair>, keys: seq<string>, key: string)
    ensures DropKey(DropKeys(s, keys), key) == DropKeys(s, keys + [key])
  {
    if s != [] {
      var head, tail := s[0], s[1..];
      DropKeysStep(tail, keys, key);
      var rest := DropKeys(tail, keys);
      assert head.0 in keys + [key] <==> head.0 in keys || head.0 == key;
      assert DropKeys(s, keys + [key]) == (if head.0 in keys + [key] then [] else [head]) + DropKeys(tail, keys + [key]);
      if head.0 !in keys {
        assert DropKeys(s, keys) == [head] + rest;
        assert ([head] + rest)[1..] == rest;
        assert DropKey([head] + rest, key) == (if head.0 == key then [] else [head]) + DropKey(rest, key);
      } else {
        assert DropKeys(s, keys) == [] + rest == rest;
      }
    }
  }

  /** Dropping no keys changes nothing. */
  lemma {:induction false} NoKeysDropped(s: seq<Pair>)
    ensures DropKeys(s, []) == s
  {
    if s != [] {
      NoKeysDropped(s[1..]);
      assert s == [s[0]] + s[1..];
    }
  }

  /**
   * `query.Remove(query.Find(x => x.Key == key))`. When no pair has the key,
   * `Find` returns the default pair, whose null key no parsed pair has, so
   * nothing is removed.
   */
  method RemoveFound(query: List<Pair>, key: string) returns (removed: bool)
    modifies query
    ensures removed <==> FindKey(old(query.elements), key).Some?
    ensures removed ==> query.elements == RemoveFirst(old(query.elements), FindKey(old(query.elements), key).value)
    ensures !removed ==> query.elements == old(query.elements)
  {
    var found := FindKey(query.elements, key);
    if found.None? {
      return false;
    }
    removed := query.Remove(found.value);
  }

  /** `do result = query.Remove(query.Find(...)); while (result);`: removes every pair with the key. */
  method RemoveEveryKey(query: List<Pair>, key: string)
    modifies query
    ensures query.elements == DropKey(old(query.elements), key)
  {
    var removed := RemoveFound(query, key);
    if removed {
      RemoveFirstKeepsDropKey(old(query.elements), FindKey(old(query.elements), key).value, key);
    }
    while removed
      invariant DropKey(query.elements, key) == DropKey(old(query.elements), key)
      invariant !removed ==> FindKey(query.elements, key).None?
      decreases |query.elements| + (if removed then 1 else 0)
    {
      ghost var before := query.elements;
      removed := RemoveFound(query, key);
      if removed {
        RemoveFirstKeepsDropKey(before, FindKey(before, key).value, key);
      }
    }
    DropAbsentKey(query.elements, key);
  }

  /** `Remove(params string[])`: every pair with one of the keys is removed; the rest keep their order. */
  method RemoveKeys(query: string, keys: seq<string>) returns (r: Result<string, Exception>)
    ensures ParseQuery(query).Failure? ==> r == Failure(ParseQuery(query).error)
    ensures ParseQuery(query).Success? ==> r == Success(Serialize(DropKeys(ParseQuery(query).value, keys)))
  {
    var parsed := ParseQuery(query);
    if parsed.Failure? {
      return Failure(parsed.error);
    }
    var list := new List(parsed.value);
    RemoveEachKey(list, keys);
    r := Success(Serialize(list.elements));
  }

  /** After removing keys, reading the query back gives exactly the pairs that were kept. */
  lemma RemoveKeysParses(query: string, keys: seq<string>)
    requires ParseQuery(query).Success?
    ensures ParseQuery(Serialize(DropKeys(ParseQuery(query).value, keys))) == Success(DropKeys(ParseQuery(query).value, keys))
  {
    var kept := DropKeys(ParseQuery(query).value, keys);
    ParsedWellFormed(query);
    assert WellFormed(kept) by {
      forall i | 0 <= i < |kept|
        ensures IsQueryText(kept[i].0) && IsQueryText(kept[i].1)
      {
        assert kept[i] in kept;
      }
    }
    QueryRoundTrip(kept);
  }

  /** The `foreach` over the keys of `Remove(params string[])`, each removed with its do-while loop. */
  method RemoveEachKey(query: List<Pair>, keys: seq<string>)
    modifies query
    ensures query.elements == DropKeys(old(query.elements), keys)
  {
    NoKeysDropped(query.elements);
    for i := 0 to |keys|
      invariant query.elements == DropKeys(old(query.elements), keys[..i])
    {
      RemoveEveryKey(query, keys[i]);
      DropKeysStep(old(query.elements), keys[..i], keys[i]);
      assert keys[..i + 1] == keys[..i] + [keys[i]];
    }
    assert keys[..|keys|] == keys;
  }

  // ---------------------------------------------------------------------------
  // Parameter names
  // ---------------------------------------------------------------------------

  /** `char.IsLower` on ASCII. */
  predicate IsLowerAscii(c: char)
  {
    'a' <= c <= 'z'
  }

  /** `char.IsUpper` on ASCII. */
  predicate IsUpperAscii(c: char)
  {
    'A' <= c <= 'Z'
  }

  /** Whether the delimiter goes after index `i`: a lowercase letter followed by an uppercase one. */
  predicate IsBoundary(s: string, i: int)
    requires 0 <= i < |s|
  {
    i < |s| - 1 && IsLowerAscii(s[i]) && IsUpperAscii(s[i + 1])
  }

  /** The reference definition: each character, followed by the delimiter at each lower-to-upper boundary. */
  function Delimited(s: string, delimiter: string): string
  {
    if s == [] then []
    else [s[0]] + (if IsBoundary(s, 0) then delimiter else "") + Delimited(s[1..], delimiter)
  }

  /** The number of lower-to-upper boundaries in `s`. */
  function Boundaries(s: string): nat
  {
    if s == [] then 0
    else (if IsBoundary(s, 0) then 1 else 0) + Boundaries(s[1..])
  }

  /** `FormatUriParameter`: the delimiter is inserted at each boundary, then everything is lowercased. */
  method FormatUriParameter(s: Option<string>, delimiter: Option<string>) returns (r: Result<string, Exception>)
    requires s.Some? ==> IsAscii(s.value)
    requires delimiter.Some? ==> IsAscii(delimiter.value)
    ensures IsNullOrWhiteSpace(s) ==> r == Failure(ArgumentNull("string"))
    ensures !IsNullOrWhiteSpace(s) && IsNullOrWhiteSpace(delimiter) ==> r == Failure(ArgumentNull("delimeter"))
    ensures !IsNullOrWhiteSpace(s) && !IsNullOrWhiteSpace(delimiter) ==>
      r == Success(ToLower(Delimited(s.value, delimiter.value)))
  {
    if IsNullOrWhiteSpace(s) {
      return Failure(ArgumentNull("string"));
    }
    if IsNullOrWhiteSpace(delimiter) {
      return Failure(ArgumentNull("delimeter"));
    }
    var str, delim := s.value, delimiter.value;
    var builder := "";
    for i := 0 to |str|
      invariant builder + Delimited(str[i..], delim) == Delimited(str, delim)
    {
      DelimitedAt(str, i, delim);
      builder := builder + [str[i]];
      if i < |str| - 1 && IsLowerAscii(str[i]) && IsUpperAscii(str[i + 1]) {
        builder := builder + delim;
      }
    }
    assert str[|str|..] == [] && builder + [] == builder;
    r := Success(ToLower(builder));
  }

  /** Unfolding the reference definition at index `i`. */
  lemma DelimitedAt(s: string, i: int, delimiter: string)
    requires 0 <= i < |s|
    ensures Delimited(s[i..], delimiter) ==
      [s[i]] + (if IsBoundary(s, i) then delimiter else "") + Delimited(s[i + 1..], delimiter)
  {
    var rest := s[i..];
    assert rest[0] == s[i] && rest[1..] == s[i + 1..];
    assert IsBoundary(rest, 0) <==> IsBoundary(s, i);
  }

  /** Each boundary adds exactly one delimiter and nothing else is added. */
  lemma {:induction false} DelimitedLength(s: string, delimiter: string)
    ensures |Delimited(s, delimiter)| == |s| + |delimiter| * Boundaries(s)
  {
    if s != [] {
      DelimitedLength(s[1..], delimiter);
    }
  }

  /** A name with no lower-to-upper boundary comes through unchanged apart from case. */
  lemma {:induction false} DelimitedWithoutBoundary(s: string, delimiter: string)
    requires Boundaries(s) == 0
    ensures Delimited(s, delimiter) == s
  {
    if s != [] {
      DelimitedWithoutBoundary(s[1..], delimiter);
      assert s == [s[0]] + s[1..];
    }
  }

  /** The delimiter lands between the words of a camel-case name. */
  lemma CamelCaseExample()
    ensures ToLower(Delimited("multiWord", "_")) == "multi_word"
  {
    DelimitedMultiWord();
    LowerMultiWord();
  }

  /** The delimiter goes after the one lower-to-upper boundary of "multiWord". */
  lemma DelimitedMultiWord()
    ensures Delimited("multiWord", "_") == "multi_Word"
  {
    WordHasNoBoundary();
    DelimitedWithoutBoundary("Word", "_");
    assert Delimited("iWord", "_") == "i_Word" by { assert "iWord"[1..] == "Word"; }
    assert Delimited("tiWord", "_") == "ti_Word" by { assert "tiWord"[1..] == "iWord"; }
    assert Delimited("ltiWord", "_") == "lti_Word" by { assert "ltiWord"[1..] == "tiWord"; }
    assert Delimited("ultiWord", "_") == "ulti_Word" by { assert "ultiWord"[1..] == "ltiWord"; }
    assert "multiWord"[1..] == "ultiWord";
  }

  /** "Word" has no lower-to-upper boundary. */
  lemma WordHasNoBoundary()
    ensures Boundaries("Word") == 0
  {
    assert "d"[1..] == "";
    assert "rd"[1..] == "d";
    assert "ord"[1..] == "rd";
    assert "Word"[1..] == "ord";
  }

  /** Lowering "multi_Word" changes only its capital. */
  lemma LowerMultiWord()
    ensures ToLower("multi_Word") == "multi_word"
  {
    var lowered := ToLower("multi_Word");
    assert lowered[6] == 'w';
    assert forall i | 0 <= i < 10 && i != 6 :: lowered[i] == "multi_Word"[i];
  }
}
