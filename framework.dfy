/**
 * Models of the .NET framework primitives the extension library and the
 * identifier codec are built on: whitespace and trimming, splitting and
 * joining strings, substring search, ASCII case mapping, and the growable
 * `List<T>` that the query-string helpers mutate.
 */
module Framework {
  import opened Wrappers

  /** The exceptions the modelled members throw. */
  datatype Exception =
    | ArgumentNull(paramName: string)
    | IndexOutOfRange(message: string)
    | ArgumentOutOfRange(paramName: string)
    | InvalidOperation(message: string)

  // ---------------------------------------------------------------------------
  // Whitespace and trimming
  // ---------------------------------------------------------------------------

  /** `char.IsWhiteSpace`: the characters of the Unicode White_Space property. */
  predicate IsWhiteSpace(c: char)
  {
    || ('\t' <= c <= '\r')
    || c == ' '
    || c == '\U{0085}'
    || c == '\U{00A0}'
    || c == '\U{1680}'
    || ('\U{2000}' <= c <= '\U{200A}')
    || c == '\U{2028}'
    || c == '\U{2029}'
    || c == '\U{202F}'
    || c == '\U{205F}'
    || c == '\U{3000}'
  }

  /** `string.IsNullOrEmpty`. */
  predicate IsNullOrEmpty(s: Option<string>)
  {
    s.None? || s.value == ""
  }

  /** `string.IsNullOrWhiteSpace`: null, empty, or whitespace only. */
  predicate IsNullOrWhiteSpace(s: Option<string>)
  {
    s.None? || forall i | 0 <= i < |s.value| :: IsWhiteSpace(s.value[i])
  }

  /** Drops the leading whitespace of `s`. */
  function TrimStart(s: string): (r: string)
    ensures |r| <= |s| && r == s[|s| - |r|..]
    ensures r == [] || !IsWhiteSpace(r[0])
    ensures forall c | c in r :: c in s
    decreases |s|
  {
    if |s| > 0 && IsWhiteSpace(s[0]) then
      var r := TrimStart(s[1..]);
      assert forall c | c in s[1..] :: c in s;
      r
    else s
  }

  /** Drops the trailing whitespace of `s`. */
  function TrimEnd(s: string): (r: string)
    ensures |r| <= |s| && r == s[..|r|]
    ensures r == [] || !IsWhiteSpace(r[|r| - 1])
    ensures forall c | c in r :: c in s
    decreases |s|
  {
    if |s| > 0 && IsWhiteSpace(s[|s| - 1]) then
      var r := TrimEnd(s[..|s| - 1]);
      assert forall c | c in s[..|s| - 1] :: c in s;
      r
    else s
  }

  /** `string.Trim()`: drops the leading and the trailing whitespace. */
  function Trim(s: string): (r: string)
    ensures forall c | c in r :: c in s
    ensures r == [] || (!IsWhiteSpace(r[0]) && !IsWhiteSpace(r[|r| - 1]))
  {
    TrimEnd(TrimStart(s))
  }

  /** A string that neither starts nor ends with whitespace is its own trim. */
  lemma TrimOfTrimmed(s: string)
    requires s == [] || (!IsWhiteSpace(s[0]) && !IsWhiteSpace(s[|s| - 1]))
    ensures Trim(s) == s
  {
  }

  // ---------------------------------------------------------------------------
  // Joining and splitting
  // ---------------------------------------------------------------------------

  /** `string.Join(sep, parts)`. */
  function Join(sep: string, parts: seq<string>): string
  {
    if |parts| == 0 then ""
    else if |parts| == 1 then parts[0]
    else parts[0] + sep + Join(sep, parts[1..])
  }

  /** `s.Split(new[] { sep }, StringSplitOptions.None)`: every segment between separators. */
  function Split(s: string, sep: char): (r: seq<string>)
    ensures |r| >= 1
    ensures forall i | 0 <= i < |r| :: sep !in r[i] && forall c | c in r[i] :: c in s
    decreases |s|
  {
    if |s| == 0 then [""]
    else
      var rest := Split(s[1..], sep);
      assert forall c | c in s[1..] :: c in s;
      if s[0] == sep then [""] + rest
      else
        var r := [[s[0]] + rest[0]] + rest[1..];
        assert forall i | 1 <= i < |r| :: r[i] == rest[i];
        r
  }

  /** What `StringSplitOptions.RemoveEmptyEntries` keeps: the non-empty segments, in order. */
  function RemoveEmpty(parts: seq<string>): (r: seq<string>)
    ensures forall i | 0 <= i < |r| :: r[i] != "" && r[i] in parts
  {
    if parts == [] then []
    else
      var rest := RemoveEmpty(parts[1..]);
      assert forall x | x in parts[1..] :: x in parts;
      (if parts[0] == "" then [] else [parts[0]]) + rest
  }

  /** `s.Split(new[] { sep }, StringSplitOptions.RemoveEmptyEntries)`: non-empty, separator-free pieces of `s`. */
  function SplitRemoveEmpty(s: string, sep: char): (r: seq<string>)
    ensures forall i | 0 <= i < |r| :: r[i] != "" && sep !in r[i] && forall c | c in r[i] :: c in s
  {
    var parts := Split(s, sep);
    var r := RemoveEmpty(parts);
    assert forall i | 0 <= i < |r| :: exists j | 0 <= j < |parts| :: r[i] == parts[j];
    r
  }

  /** Every character of a join comes from the separator or from one of the parts. */
  lemma {:induction false} JoinChars(sep: string, parts: seq<string>)
    ensures forall c | c in Join(sep, parts) :: c in sep || exists i | 0 <= i < |parts| :: c in parts[i]
    decreases |parts|
  {
    if |parts| > 1 {
      JoinChars(sep, parts[1..]);
      forall c | c in Join(sep, parts[1..])
        ensures c in sep || exists i | 0 <= i < |parts| :: c in parts[i]
      {
        if c !in sep {
          var i :| 0 <= i < |parts[1..]| && c in parts[1..][i];
          assert c in parts[i + 1];
        }
      }
    } else if |parts| == 1 {
      forall c | c in Join(sep, parts)
        ensures c in parts[0]
      {
      }
    }
  }

  /** A separator-free prefix glues onto the first segment of what follows it. */
  lemma {:induction false} SplitSeparatorFree(p: string, rest: string, sep: char)
    requires sep !in p
    ensures Split(p + rest, sep) == [p + Split(rest, sep)[0]] + Split(rest, sep)[1..]
    decreases |p|
  {
    if p != [] {
      SplitSeparatorFree(p[1..], rest, sep);
      assert (p + rest)[1..] == p[1..] + rest;
      assert [p[0]] + (p[1..] + Split(rest, sep)[0]) == p + Split(rest, sep)[0];
    } else {
      assert p + rest == rest;
      assert p + Split(rest, sep)[0] == Split(rest, sep)[0];
      assert Split(rest, sep) == [Split(rest, sep)[0]] + Split(rest, sep)[1..];
    }
  }

  /** Splitting a join of separator-free parts gives the parts back. */
  lemma {:induction false} SplitJoin(parts: seq<string>, sep: char)
    requires |parts| >= 1
    requires forall i | 0 <= i < |parts| :: sep !in parts[i]
    ensures Split(Join([sep], parts), sep) == parts
    decreases |parts|
  {
    if |parts| == 1 {
      SplitSeparatorFree(parts[0], "", sep);
      assert parts[0] + "" == parts[0];
    } else {
      var tail := Join([sep], parts[1..]);
      SplitJoin(parts[1..], sep);
      assert Split([sep] + tail, sep) == [""] + parts[1..] by {
        assert ([sep] + tail)[1..] == tail;
      }
      SplitSeparatorFree(parts[0], [sep] + tail, sep);
      assert Join([sep], parts) == parts[0] + ([sep] + tail);
      assert parts[0] + "" == parts[0];
      assert ([""] + parts[1..])[1..] == parts[1..];
      assert parts == [parts[0]] + parts[1..];
    }
  }

  /** Dropping empty segments leaves a list of non-empty segments unchanged. */
  lemma {:induction false} RemoveEmptyOfNonEmpty(parts: seq<string>)
    requires forall i | 0 <= i < |parts| :: parts[i] != ""
    ensures RemoveEmpty(parts) == parts
  {
    if parts != [] {
      RemoveEmptyOfNonEmpty(parts[1..]);
      assert parts == [parts[0]] + parts[1..];
    }
  }

  /** Splitting, without empty entries, a join of non-empty separator-free parts gives the parts back. */
  lemma SplitRemoveEmptyJoin(parts: seq<string>, sep: char)
    requires forall i | 0 <= i < |parts| :: parts[i] != "" && sep !in parts[i]
    ensures SplitRemoveEmpty(Join([sep], parts), sep) == parts
  {
    if parts == [] {
      assert SplitRemoveEmpty("", sep) == RemoveEmpty([""]) == [];
    } else {
      SplitJoin(parts, sep);
      RemoveEmptyOfNonEmpty(parts);
    }
  }

  // ---------------------------------------------------------------------------
  // Substrings and case
  // ---------------------------------------------------------------------------

  /** `s.Contains(t)`: `t` occurs in `s` at some position. */
  predicate Contains(s: string, t: string)
  {
    exists i | 0 <= i <= |s| - |t| :: t <= s[i..]
  }

  /**
   * `s.Substring(start, length)`: the `length` characters from `start`. The
   * arguments are checked in the framework's order, each failure naming the
   * offending parameter.
   */
  function Substring(s: string, start: int, length: int): (r: Result<string, Exception>)
    ensures r.Success? <==> 0 <= start && 0 <= length && start + length <= |s|
    ensures r.Success? ==> |r.value| == length && forall i | 0 <= i < length :: r.value[i] == s[start + i]
    ensures r.Failure? ==> r.error.ArgumentOutOfRange?
  {
    if start < 0 then Failure(ArgumentOutOfRange("startIndex"))
    else if start > |s| then Failure(ArgumentOutOfRange("startIndex"))
    else if length < 0 then Failure(ArgumentOutOfRange("length"))
    else if start > |s| - length then Failure(ArgumentOutOfRange("length"))
    else Success(s[start..start + length])
  }

  /** `s.Replace(c.ToString(), "")`: `s` without any `c`, the other characters in order. */
  function RemoveChar(s: string, c: char): (r: string)
    ensures forall d :: d in r <==> d in s && d != c
    ensures c !in s ==> r == s
  {
    if s == [] then []
    else
      var rest := RemoveChar(s[1..], c);
      assert forall d :: d in s <==> d == s[0] || d in s[1..];
      assert c !in s ==> s == [s[0]] + s[1..];
      if s[0] == c then rest else [s[0]] + rest
  }

  /** `char.ToLowerInvariant` on the ASCII range. */
  function LowerChar(c: char): char
  {
    if 'A' <= c <= 'Z' then (c as int + 32) as char else c
  }

  /** `char.ToUpperInvariant` on the ASCII range. */
  function UpperChar(c: char): char
  {
    if 'a' <= c <= 'z' then (c as int - 32) as char else c
  }

  /** `string.ToLower()` on ASCII text. */
  function ToLower(s: string): (r: string)
    ensures |r| == |s|
  {
    seq(|s|, i requires 0 <= i < |s| => LowerChar(s[i]))
  }

  /** `string.ToUpper()` on ASCII text. */
  function ToUpper(s: string): (r: string)
    ensures |r| == |s|
  {
    seq(|s|, i requires 0 <= i < |s| => UpperChar(s[i]))
  }

  /** Every character of `s` is ASCII. */
  predicate IsAscii(s: string)
  {
    forall i | 0 <= i < |s| :: s[i] < '\U{0080}'
  }

  // ---------------------------------------------------------------------------
  // List<T>
  // ---------------------------------------------------------------------------

  /** `s` with the first occurrence of `x` removed, if there is one. */
  function RemoveFirst<T(==)>(s: seq<T>, x: T): (r: seq<T>)
    ensures x in s ==> |r| == |s| - 1
    ensures x !in s ==> r == s
  {
    if s == [] then []
    else if s[0] == x then s[1..]
    else [s[0]] + RemoveFirst(s[1..], x)
  }

  /** `System.Collections.Generic.List<T>`: a growable list updated in place. */
  class List<T(==)> {
    var elements: seq<T>

    constructor (init: seq<T>)
      ensures elements == init
    {
      elements := init;
    }

    /** `List.Add`: appends at the end. */
    method Add(x: T)
      modifies this
      ensures elements == old(elements) + [x]
    {
      elements := elements + [x];
    }

    /** `List.Remove`: removes the first occurrence and reports whether there was one. */
    method Remove(x: T) returns (removed: bool)
      modifies this
      ensures removed <==> x in old(elements)
      ensures elements == RemoveFirst(old(elements), x)
    {
      removed := x in elements;
      elements := RemoveFirst(elements, x);
    }
  }
}
