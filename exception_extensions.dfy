/**
 * `SimpleDescription`: the messages of an exception and of its chain of
 * inner exceptions, one per line, outermost first. An exception is its
 * message and its optional inner exception; a null exception is `None`.
 */
module ExceptionExtensions {
  import opened Wrappers

  /** An exception: its `Message` and its `InnerException`. */
  datatype Exc = Exc(message: string, inner: Option<Exc>)

  /** `Environment.NewLine` on the Windows targets of the library. */
  const NewLine: string := "\r\n"

  /** The number of exceptions in the chain starting at `ex`. */
  function Depth(ex: Option<Exc>): nat
  {
    if ex.None? then 0 else 1 + Depth(ex.value.inner)
  }

  /** The messages of the chain, outermost first. */
  function Messages(ex: Option<Exc>): (r: seq<string>)
    ensures |r| == Depth(ex)
  {
    if ex.None? then [] else [ex.value.message] + Messages(ex.value.inner)
  }

  /** The reference definition: each message of the chain followed by a line break, outermost first. */
  function Description(ex: Option<Exc>): string
  {
    if ex.None? then "" else ex.value.message + NewLine + Description(ex.value.inner)
  }

  /** Messages laid out as text: each one followed by a line break, in order. */
  function Lines(ms: seq<string>): string
  {
    if ms == [] then "" else ms[0] + NewLine + Lines(ms[1..])
  }

  /** Laying out two runs of messages is laying out each, in order. */
  lemma {:induction false} LinesConcat(a: seq<string>, b: seq<string>)
    ensures Lines(a + b) == Lines(a) + Lines(b)
  {
    if a == [] {
      assert a + b == b;
    } else {
      assert (a + b)[0] == a[0];
      assert (a + b)[1..] == a[1..] + b;
      LinesConcat(a[1..], b);
    }
  }

  /** The description is the chain's messages laid out one per line, outermost first. */
  lemma {:induction false} DescriptionIsLines(ex: Option<Exc>)
    ensures Description(ex) == Lines(Messages(ex))
    decreases Depth(ex)
  {
    if ex.Some? {
      var ms := Messages(ex);
      assert ms[0] == ex.value.message;
      assert ms[1..] == Messages(ex.value.inner);
      DescriptionIsLines(ex.value.inner);
    }
  }

  /** Message `i` of the chain is line `i` of the description: the lines before it hold exactly the outer messages. */
  lemma LineOfMessage(ex: Option<Exc>, i: nat)
    requires i < Depth(ex)
    ensures Description(ex) == Lines(Messages(ex)[..i]) + Messages(ex)[i] + NewLine + Lines(Messages(ex)[i + 1..])
  {
    DescriptionIsLines(ex);
    LinesAt(Messages(ex), i);
  }

  /** The layout of `ms` split around its message `i`. */
  lemma LinesAt(ms: seq<string>, i: nat)
    requires i < |ms|
    ensures Lines(ms) == Lines(ms[..i]) + ms[i] + NewLine + Lines(ms[i + 1..])
  {
    var before, rest := ms[..i], ms[i..];
    SplitAt(ms, i);
    LinesConcat(before, rest);
    LinesFrom(ms, i);
    Regroup(Lines(before), ms[i] + NewLine, Lines(ms[i + 1..]));
  }

  /** A sequence is its prefix followed by the matching suffix. */
  lemma SplitAt(ms: seq<string>, i: nat)
    requires i <= |ms|
    ensures ms[..i] + ms[i..] == ms
  {
  }

  /** The layout of a suffix starts with its first message. */
  lemma LinesFrom(ms: seq<string>, i: nat)
    requires i < |ms|
    ensures Lines(ms[i..]) == (ms[i] + NewLine) + Lines(ms[i + 1..])
  {
    assert ms[i..][0] == ms[i] && ms[i..][1..] == ms[i + 1..];
  }

  /** Regrouping a concatenation of three strings. */
  lemma Regroup(a: string, b: string, c: string)
    ensures a + (b + c) == a + b + c
  {
  }

  /** `SimpleDescription`: walks the inner exceptions, appending each message as a line. */
  method SimpleDescription(ex: Option<Exc>) returns (s: string)
    ensures ex.None? ==> s == ""
    ensures s == Description(ex)
  {
    s := "";
    var current := ex;
    while current.Some?
      invariant s + Description(current) == Description(ex)
      decreases Depth(current)
    {
      assert Description(current) == current.value.message + NewLine + Description(current.value.inner);
      s := s + current.value.message + NewLine;
      current := current.value.inner;
    }
    assert s + "" == s;
  }

  /** The number of occurrences of `c` in `s`. */
  function Count(s: string, c: char): nat
  {
    if s == [] then 0 else (if s[0] == c then 1 else 0) + Count(s[1..], c)
  }

  /** Counting distributes over concatenation. */
  lemma {:induction false} CountConcat(a: string, b: string, c: char)
    ensures Count(a + b, c) == Count(a, c) + Count(b, c)
  {
    if a != [] {
      assert (a + b)[1..] == a[1..] + b;
      CountConcat(a[1..], b, c);
    } else {
      assert a + b == b;
    }
  }

  /** With line-break-free messages, the description has exactly one line per exception in the chain. */
  lemma {:induction false} OneLinePerException(ex: Option<Exc>)
    requires forall i | 0 <= i < |Messages(ex)| :: '\n' !in Messages(ex)[i]
    ensures Count(Description(ex), '\n') == Depth(ex) == |Messages(ex)|
    decreases Depth(ex)
  {
    if ex.Some? {
      var e := ex.value;
      assert Messages(ex)[0] == e.message;
      assert forall i | 0 <= i < |Messages(e.inner)| :: Messages(e.inner)[i] == Messages(ex)[i + 1];
      OneLinePerException(e.inner);
      NoLineBreak(e.message);
      CountConcat(e.message, NewLine, '\n');
      CountConcat(e.message + NewLine, Description(e.inner), '\n');
    }
  }

  /** A string without a line feed counts none. */
  lemma {:induction false} NoLineBreak(s: string)
    requires '\n' !in s
    ensures Count(s, '\n') == 0
  {
    if s != [] {
      NoLineBreak(s[1..]);
    }
  }

  /** The library's test: three nested exceptions give their three messages, outermost first, one per line. */
  lemma ThreeLevelExample()
    ensures var ex := Some(Exc("Application failed.", Some(Exc("Call of Method0 failed", Some(Exc("Arg0 cannot be blank.", None))))));
      && Messages(ex) == ["Application failed.", "Call of Method0 failed", "Arg0 cannot be blank."]
      && Description(ex) == "Application failed." + NewLine + "Call of Method0 failed" + NewLine + "Arg0 cannot be blank." + NewLine
  {
    var inner := Some(Exc("Arg0 cannot be blank.", None));
    var middle := Some(Exc("Call of Method0 failed", inner));
    assert Description(inner) == "Arg0 cannot be blank." + NewLine;
    assert Description(middle) == "Call of Method0 failed" + NewLine + Description(inner);
  }
}
