/**
 * The string helpers of the extension library: slicing by count (`Left`,
 * `Right`) and by inclusive index range (`Mid`), joining without blank
 * entries, ASCII case tests, URL cleaning, and substring membership tests.
 * A null string is `None`; thrown exceptions are `Failure`s.
 */
module StringExtensions {
  import opened Wrappers
  import opened Framework
  import LinqExtensions

  // ---------------------------------------------------------------------------
  // Slicing
  // ---------------------------------------------------------------------------

  /** `Left`: the first `length` characters. */
  function Left(s: Option<string>, length: int): (r: Result<string, Exception>)
    ensures IsNullOrWhiteSpace(s) ==> r == Failure(ArgumentNull("string"))
    ensures !IsNullOrWhiteSpace(s) && length > |s.value| ==> r == Failure(IndexOutOfRange("length"))
    ensures !IsNullOrWhiteSpace(s) && length < 0 ==> r == Failure(ArgumentOutOfRange("length"))
    ensures r.Success? <==> !IsNullOrWhiteSpace(s) && 0 <= length <= |s.value|
    ensures r.Success? ==> r.value == s.value[..length]
  {
    if IsNullOrWhiteSpace(s) then Failure(ArgumentNull("string"))
    else if length > |s.value| then Failure(IndexOutOfRange("length"))
    else Substring(s.value, 0, length)
  }

  /** `Right`: the last `length` characters. A negative length moves the start past the end. */
  function Right(s: Option<string>, length: int): (r: Result<string, Exception>)
    ensures IsNullOrWhiteSpace(s) ==> r == Failure(ArgumentNull("string"))
    ensures !IsNullOrWhiteSpace(s) && length > |s.value| ==> r == Failure(IndexOutOfRange("length"))
    ensures !IsNullOrWhiteSpace(s) && length < 0 ==> r == Failure(ArgumentOutOfRange("startIndex"))
    ensures r.Success? <==> !IsNullOrWhiteSpace(s) && 0 <= length <= |s.value|
    ensures r.Success? ==> r.value == s.value[|s.value| - length..]
  {
    if IsNullOrWhiteSpace(s) then Failure(ArgumentNull("string"))
    else if length > |s.value| then Failure(IndexOutOfRange("length"))
    else Substring(s.value, |s.value| - length, length)
  }

  /**
   * `Mid`: the characters from index `start` to index `end`, both included.
   * The guards let `end == |s|` through, and `Substring` then rejects the
   * length; a negative start is rejected by `Substring` as well.
   */
  function Mid(s: Option<string>, start: int, end: int): (r: Result<string, Exception>)
    ensures IsNullOrWhiteSpace(s) ==> r == Failure(ArgumentNull("string"))
    ensures !IsNullOrWhiteSpace(s) && start > |s.value| ==> r == Failure(IndexOutOfRange("start"))
    ensures !IsNullOrWhiteSpace(s) && start <= |s.value| < end ==> r == Failure(IndexOutOfRange("end"))
    ensures !IsNullOrWhiteSpace(s) && start <= |s.value| && end <= |s.value| && end < start ==> r == Failure(IndexOutOfRange("start must be <= end."))
    ensures !IsNullOrWhiteSpace(s) && start < 0 && start <= end <= |s.value| ==> r == Failure(ArgumentOutOfRange("startIndex"))
    ensures !IsNullOrWhiteSpace(s) && 0 <= start <= end == |s.value| ==> r == Failure(ArgumentOutOfRange("length"))
    ensures r.Success? <==> !IsNullOrWhiteSpace(s) && 0 <= start <= end < |s.value|
    ensures r.Success? ==> r.value == s.value[start..end + 1]
  {
    if IsNullOrWhiteSpace(s) then Failure(ArgumentNull("string"))
    else if start > |s.value| then Failure(IndexOutOfRange("start"))
    else if end > |s.value| then Failure(IndexOutOfRange("end"))
    else if start > end then Failure(IndexOutOfRange("start must be <= end."))
    else Substring(s.value, start, end - start + 1)
  }

  /** `Left` and `Right` with complementary counts cut the string in two. */
  lemma LeftRightSplit(s: string, n: int)
    requires !IsNullOrWhiteSpace(Some(s)) && 0 <= n <= |s|
    ensures Left(Some(s), n).value + Right(Some(s), |s| - n).value == s
  {
    assert s[..n] + s[n..] == s;
  }

  /** `Mid` is `Left` up to and including `end`, with the first `start` characters cut off. */
  lemma MidIsSuffixOfLeft(s: string, start: int, end: int)
    requires !IsNullOrWhiteSpace(Some(s)) && 0 <= start <= end < |s|
    ensures Mid(Some(s), start, end).value == Left(Some(s), end + 1).value[start..]
    ensures |Mid(Some(s), start, end).value| == end - start + 1
  {
  }

  /** The slicing examples the library's tests check. */
  lemma SlicingExamples()
    ensures Left(Some(""), 2) == Failure(ArgumentNull("string"))
    ensures Left(Some("abc"), 4) == Failure(IndexOutOfRange("length"))
    ensures Left(Some("abcdef"), 2) == Success("ab")
    ensures Right(Some(""), 2) == Failure(ArgumentNull("string"))
    ensures Right(Some("abc"), 4) == Failure(IndexOutOfRange("length"))
    ensures Right(Some("abcdef"), 2) == Success("ef")
    ensures Mid(Some(""), 5, 7) == Failure(ArgumentNull("string"))
    ensures Mid(Some("abcdefghij"), 11, 5) == Failure(IndexOutOfRange("start"))
    ensures Mid(Some("abcdefghij"), 5, 11) == Failure(IndexOutOfRange("end"))
    ensures Mid(Some("abcdefghij"), 7, 5) == Failure(IndexOutOfRange("start must be <= end."))
    ensures Mid(Some("abcdefghij"), 4, 5) == Success("ef")
  {
    assert !IsWhiteSpace("abc"[0]);
    assert !IsWhiteSpace("abcdef"[0]);
    assert !IsWhiteSpace("abcdefghij"[0]);
    assert "abcdef"[..2] == "ab" && "abcdef"[4..] == "ef";
    assert "abcdefghij"[4..6] == "ef";
  }

  // ---------------------------------------------------------------------------
  // Joining
  // ---------------------------------------------------------------------------

  /** `ValidatedJoin`: `string.Join` over the entries that are neither null nor blank. */
  function ValidatedJoin(strings: seq<Option<string>>, delimiter: string): (r: string)
    ensures (forall i | 0 <= i < |strings| :: IsNullOrWhiteSpace(strings[i])) ==> r == ""
  {
    var kept := LinqExtensions.WhereNotNullOrWhitespace(Some(strings));
    assert kept == [] || kept[0] in kept;
    Join(delimiter, kept)
  }

  /** Splitting the joined text on a one-character delimiter that no entry contains gives back exactly the kept entries. */
  lemma ValidatedJoinSplits(strings: seq<Option<string>>, sep: char)
    requires forall i | 0 <= i < |strings| :: strings[i].Some? ==> sep !in strings[i].value
    ensures SplitRemoveEmpty(ValidatedJoin(strings, [sep]), sep) == LinqExtensions.WhereNotNullOrWhitespace(Some(strings))
  {
    var kept := LinqExtensions.WhereNotNullOrWhitespace(Some(strings));
    forall i | 0 <= i < |kept|
      ensures kept[i] != "" && sep !in kept[i]
    {
      assert kept[i] in kept;
      var j :| 0 <= j < |strings| && strings[j] == Some(kept[i]);
    }
    SplitRemoveEmptyJoin(kept, sep);
  }

  // ---------------------------------------------------------------------------
  // Case tests
  // ---------------------------------------------------------------------------

  /** `IsLower`: every character code is in 97..122 (`a`..`z`). */
  function IsLower(s: string): (r: bool)
    ensures r <==> forall i | 0 <= i < |s| :: 'a' <= s[i] <= 'z'
  {
    s == [] || (97 <= s[0] as int <= 122 && IsLower(s[1..]))
  }

  /** `IsUpper`: every character code is in 65..90 (`A`..`Z`). */
  function IsUpper(s: string): (r: bool)
    ensures r <==> forall i | 0 <= i < |s| :: 'A' <= s[i] <= 'Z'
  {
    s == [] || (65 <= s[0] as int <= 90 && IsUpper(s[1..]))
  }

  /** Lowercase text is its own lowercase form, uppercase text lowercases to lowercase text, and only the empty string is both. */
  lemma CaseTests(s: string)
    ensures IsLower(s) ==> ToLower(s) == s
    ensures IsUpper(s) ==> IsLower(ToLower(s))
    ensures IsLower(s) && IsUpper(s) <==> s == []
  {
    if s != [] && IsLower(s) {
      assert !('A' <= s[0] <= 'Z');
    }
  }

  // ---------------------------------------------------------------------------
  // Cleaning for URLs
  // ---------------------------------------------------------------------------

  /** `Enumerable.Range(start, count)`, as characters. */
  function CharRange(start: nat, count: nat): (r: seq<char>)
    requires start + count <= 128
    ensures |r| == count
    ensures forall j | 0 <= j < count :: r[j] as int == start + j
  {
    seq(count, i requires 0 <= i < count => (start + i) as char)
  }

  /** A character is in a range exactly when its code is. */
  lemma InCharRange(c: char, start: nat, count: nat)
    requires start + count <= 128
    ensures c in CharRange(start, count) <==> start <= c as int < start + count
  {
    if start <= c as int < start + count {
      assert CharRange(start, count)[c as int - start] == c;
    }
  }

  /** The characters `CleanForUrl` deletes, in the order it deletes them. */
  function UrlUnsafe(): seq<char>
  {
    CharRange(0, 31) + CharRange(33, 15) + CharRange(58, 7) + CharRange(91, 6) + CharRange(123, 5)
  }

  /** The codes deleted: 0-30, 33-47, 58-64, 91-96 and 123-127. */
  predicate IsUrlUnsafe(c: char)
  {
    || (0 <= c as int <= 30)
    || (33 <= c as int <= 47)
    || (58 <= c as int <= 64)
    || (91 <= c as int <= 96)
    || (123 <= c as int <= 127)
  }

  /** The deletion list holds exactly the unsafe characters. */
  lemma UrlUnsafeExactly(c: char)
    ensures c in UrlUnsafe() <==> IsUrlUnsafe(c)
  {
    InCharRange(c, 0, 31);
    InCharRange(c, 33, 15);
    InCharRange(c, 58, 7);
    InCharRange(c, 91, 6);
    InCharRange(c, 123, 5);
  }

  /** The `Aggregate` of `Replace` calls: each character of `cs` deleted in turn. */
  function RemoveEach(s: string, cs: seq<char>): (r: string)
    ensures forall d :: d in r <==> d in s && d !in cs
    decreases |cs|
  {
    if cs == [] then s
    else
      var rest := RemoveEach(RemoveChar(s, cs[0]), cs[1..]);
      assert forall d :: d in cs <==> d == cs[0] || d in cs[1..];
      rest
  }

  /** The reference definition: the characters of `s` not in `cs`, in their original order. */
  function Without(s: string, cs: seq<char>): string
  {
    if s == [] then []
    else (if s[0] in cs then [] else [s[0]]) + Without(s[1..], cs)
  }

  /** Deleting `c` first and the others after is deleting them all at once. */
  lemma {:induction false} WithoutAfterRemoveChar(s: string, c: char, cs: seq<char>)
    ensures Without(RemoveChar(s, c), cs) == Without(s, [c] + cs)
  {
    if s != [] {
      WithoutAfterRemoveChar(s[1..], c, cs);
      if s[0] != c {
        assert ([s[0]] + RemoveChar(s[1..], c))[1..] == RemoveChar(s[1..], c);
      }
    }
  }

  /** The fold of deletions keeps the surviving characters in their original order. */
  lemma {:induction false} RemoveEachIsWithout(s: string, cs: seq<char>)
    ensures RemoveEach(s, cs) == Without(s, cs)
    decreases |cs|
  {
    if cs == [] {
      WithoutNothing(s);
    } else {
      RemoveEachIsWithout(RemoveChar(s, cs[0]), cs[1..]);
      WithoutAfterRemoveChar(s, cs[0], cs[1..]);
      assert [cs[0]] + cs[1..] == cs;
    }
  }

  /** Deleting no characters leaves the string as it is. */
  lemma {:induction false} WithoutNothing(s: string)
    ensures Without(s, []) == s
  {
    if s != [] {
      WithoutNothing(s[1..]);
      assert s == [s[0]] + s[1..];
    }
  }

  /** `CleanForUrl`: deletes the unsafe characters, then trims. */
  function CleanForUrl(s: string): (r: string)
    ensures forall c | c in r :: c in s && !IsUrlUnsafe(c)
    ensures r == [] || (!IsWhiteSpace(r[0]) && !IsWhiteSpace(r[|r| - 1]))
  {
    CleanedChars(s);
    Trim(RemoveEach(s, UrlUnsafe()))
  }

  /** After the deletions and the trim, no unsafe character is left, and every one left was there before. */
  lemma CleanedChars(s: string)
    ensures forall c | c in Trim(RemoveEach(s, UrlUnsafe())) :: c in s && !IsUrlUnsafe(c)
  {
    var kept := RemoveEach(s, UrlUnsafe());
    forall c | c in Trim(kept)
      ensures c in s && !IsUrlUnsafe(c)
    {
      assert c in kept;
      UrlUnsafeExactly(c);
    }
  }

  /** Cleaning is trimming the in-order filter: the surviving characters keep their order. */
  lemma CleanForUrlIsTrimmedFilter(s: string)
    ensures CleanForUrl(s) == Trim(Without(s, UrlUnsafe()))
  {
    RemoveEachIsWithout(s, UrlUnsafe());
  }

  /** Text with no unsafe character and no surrounding whitespace comes through unchanged. */
  lemma CleanForUrlKeepsClean(s: string)
    requires forall i | 0 <= i < |s| :: !IsUrlUnsafe(s[i])
    requires s == [] || (!IsWhiteSpace(s[0]) && !IsWhiteSpace(s[|s| - 1]))
    ensures CleanForUrl(s) == s
  {
    calc {
      CleanForUrl(s);
      { CleanForUrlIsTrimmedFilter(s); }
      Trim(Without(s, UrlUnsafe()));
      { WithoutSafe(s); }
      Trim(s);
      { TrimOfTrimmed(s); }
      s;
    }
  }

  /** No character of `s` is deleted when none is unsafe. */
  lemma {:induction false} WithoutSafe(s: string)
    requires forall i | 0 <= i < |s| :: !IsUrlUnsafe(s[i])
    ensures Without(s, UrlUnsafe()) == s
  {
    if s != [] {
      UrlUnsafeExactly(s[0]);
      WithoutSafe(s[1..]);
      assert s == [s[0]] + s[1..];
    }
  }

  /** The URL-reserved punctuation the library's test feeds to `CleanForUrl`. */
  const Reserved: string := "!*'();:@&=+$,/?%#[]"

  /** None of the URL-reserved punctuation survives cleaning. */
  lemma CleanForUrlDropsReserved(s: string)
    ensures forall i | 0 <= i < |Reserved| :: Reserved[i] !in CleanForUrl(s)
  {
    forall i | 0 <= i < |Reserved|
      ensures IsUrlUnsafe(Reserved[i])
    {
    }
  }

  // ---------------------------------------------------------------------------
  // Substring membership
  // ---------------------------------------------------------------------------

  /** `ContainsAny`: some argument occurs in the source. */
  function ContainsAny(source: string, args: seq<string>): (r: bool)
    ensures r <==> exists i | 0 <= i < |args| :: Contains(source, args[i])
  {
    if args == [] then false
    else Contains(source, args[0]) || ContainsAny(source, args[1..])
  }

  /** `ContainsAll`: every argument occurs in the source; vacuously true for no arguments. */
  function ContainsAll(source: string, args: seq<string>): (r: bool)
    ensures r <==> forall i | 0 <= i < |args| :: Contains(source, args[i])
  {
    if args == [] then true
    else Contains(source, args[0]) && ContainsAll(source, args[1..])
  }

  /** The empty argument occurs everywhere; with at least one argument, all implies any. */
  lemma MembershipFacts(source: string, args: seq<string>)
    ensures "" in args ==> ContainsAny(source, args)
    ensures args != [] && ContainsAll(source, args) ==> ContainsAny(source, args)
  {
    if "" in args {
      var i :| 0 <= i < |args| && args[i] == "";
      assert "" <= source[0..];
    }
    if args != [] && ContainsAll(source, args) {
      assert Contains(source, args[0]);
    }
  }
}
