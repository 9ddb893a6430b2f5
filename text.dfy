/**
 * The two string splits the player relies on, after .NET's String.Split:
 * splitting on a set of separator characters keeps every piece, empty ones
 * included; the line split then drops the empty pieces
 * (StringSplitOptions.RemoveEmptyEntries).
 */
module Text {
  /** No character of `s` is in `seps`. */
  predicate Free(s: string, seps: set<char>)
  {
    forall c :: c in s ==> c !in seps
  }

  /** Number of separator characters in `s`. */
  function SepCount(s: string, seps: set<char>): nat
    decreases |s|
  {
    if s == [] then 0 else (if s[0] in seps then 1 else 0) + SepCount(s[1..], seps)
  }

  /** `s` with every separator character removed. */
  function Strip(s: string, seps: set<char>): string
    decreases |s|
  {
    if s == [] then [] else (if s[0] in seps then [] else [s[0]]) + Strip(s[1..], seps)
  }

  /** The pieces glued together, in order. */
  function Concat(parts: seq<string>): string
    decreases |parts|
  {
    if parts == [] then [] else parts[0] + Concat(parts[1..])
  }

  /** The pieces glued together with `d` between neighbours. */
  function Join(parts: seq<string>, d: char): string
    requires |parts| >= 1
    decreases |parts|
  {
    if |parts| == 1 then parts[0] else parts[0] + [d] + Join(parts[1..], d)
  }

  /**
   * String.Split(char[]): one piece more than there are separators, and no
   * piece holds a separator.
   */
  function Split(s: string, seps: set<char>): (parts: seq<string>)
    ensures |parts| == SepCount(s, seps) + 1
    ensures forall k :: 0 <= k < |parts| ==> Free(parts[k], seps)
    decreases |s|
  {
    if s == [] then [""]
    else
      var rest := Split(s[1..], seps);
      if s[0] in seps then [""] + rest
      else [[s[0]] + rest[0]] + rest[1..]
  }

  /** The pieces that are not empty, in their order. */
  function RemoveEmpty(parts: seq<string>): (r: seq<string>)
    ensures forall k :: 0 <= k < |r| ==> r[k] != ""
    ensures forall x :: x in r ==> x in parts
    ensures forall x :: x in parts && x != "" ==> x in r
    decreases |parts|
  {
    if parts == [] then []
    else (if parts[0] == "" then [] else [parts[0]]) + RemoveEmpty(parts[1..])
  }

  /** The line terminators the player splits on. */
  const LineBreaks: set<char> := {'\n', '\r'}

  /** The token separator of a data line. */
  const Comma: char := ','

  /** Split(new char[] { '\n', '\r' }, RemoveEmptyEntries): the non-empty lines of `text`. */
  function Lines(text: string): (lines: seq<string>)
    ensures forall k :: 0 <= k < |lines| ==> lines[k] != "" && Free(lines[k], LineBreaks)
  {
    var pieces := Split(text, LineBreaks);
    assert forall x :: x in pieces ==> Free(x, LineBreaks);
    RemoveEmpty(pieces)
  }

  /** Split(','): the comma-separated tokens of one line. */
  function Tokens(line: string): (tokens: seq<string>)
    ensures |tokens| == SepCount(line, {Comma}) + 1
    ensures forall k :: 0 <= k < |tokens| ==> Free(tokens[k], {Comma})
  {
    Split(line, {Comma})
  }

  lemma ConcatCons(p: string, parts: seq<string>)
    ensures Concat([p] + parts) == p + Concat(parts)
  {
    assert ([p] + parts)[1..] == parts;
  }

  /** Splitting on one character and joining again with it gives back the text. */
  lemma {:induction false} JoinSplit(s: string, d: char)
    ensures Join(Split(s, {d}), d) == s
    decreases |s|
  {
    if s != [] {
      var rest := Split(s[1..], {d});
      JoinSplit(s[1..], d);
      if s[0] == d {
        assert Split(s, {d}) == [""] + rest;
        assert ([""] + rest)[1..] == rest;
        assert s == [d] + s[1..];
      } else {
        var parts := Split(s, {d});
        assert parts == [[s[0]] + rest[0]] + rest[1..];
        if |rest| == 1 {
          assert s == [s[0]] + s[1..];
        } else {
          assert parts[1..] == rest[1..];
          assert Join(rest, d) == rest[0] + [d] + Join(rest[1..], d);
          assert s == [s[0]] + s[1..];
        }
      }
    }
  }

  /** A separator-free prefix only extends the first piece. */
  lemma {:induction false} SplitFreePrefix(p: string, s: string, d: char)
    requires Free(p, {d})
    ensures Split(p + s, {d}) == [p + Split(s, {d})[0]] + Split(s, {d})[1..]
    decreases |p|
  {
    if p != [] {
      assert (p + s)[1..] == p[1..] + s;
      assert p[0] in p;
      SplitFreePrefix(p[1..], s, d);
      assert [p[0]] + (p[1..] + Split(s, {d})[0]) == p + Split(s, {d})[0];
    } else {
      var parts := Split(s, {d});
      assert p + s == s && p + parts[0] == parts[0];
      assert parts == [parts[0]] + parts[1..];
    }
  }

  /** Joining separator-free pieces and splitting again gives back the pieces. */
  lemma {:induction false} SplitJoin(parts: seq<string>, d: char)
    requires |parts| >= 1
    requires forall k :: 0 <= k < |parts| ==> Free(parts[k], {d})
    ensures Split(Join(parts, d), {d}) == parts
    decreases |parts|
  {
    if |parts| == 1 {
      SplitFreePrefix(parts[0], "", d);
      assert parts[0] + "" == parts[0];
    } else {
      var tail := Join(parts[1..], d);
      SplitJoin(parts[1..], d);
      SplitFreePrefix(parts[0], [d] + tail, d);
      assert ([d] + tail)[1..] == tail;
      assert Split([d] + tail, {d}) == [""] + parts[1..];
      assert parts[0] + [d] + tail == parts[0] + ([d] + tail);
      assert parts[0] + "" == parts[0];
    }
  }

  /** The pieces of a split hold exactly the non-separator characters, in order. */
  lemma {:induction false} ConcatSplit(s: string, seps: set<char>)
    ensures Concat(Split(s, seps)) == Strip(s, seps)
    decreases |s|
  {
    if s == [] {
      assert Concat([""]) == "" + Concat([]);
    } else {
      var rest := Split(s[1..], seps);
      ConcatSplit(s[1..], seps);
      if s[0] in seps {
        ConcatCons("", rest);
      } else {
        ConcatCons([s[0]] + rest[0], rest[1..]);
        ConcatCons(rest[0], rest[1..]);
        assert rest == [rest[0]] + rest[1..];
      }
    }
  }

  /** Dropping empty pieces does not change the glued text. */
  lemma {:induction false} ConcatRemoveEmpty(parts: seq<string>)
    ensures Concat(RemoveEmpty(parts)) == Concat(parts)
    decreases |parts|
  {
    if parts != [] {
      ConcatRemoveEmpty(parts[1..]);
      if parts[0] == "" {
        assert RemoveEmpty(parts) == RemoveEmpty(parts[1..]);
      } else {
        ConcatCons(parts[0], RemoveEmpty(parts[1..]));
      }
    }
  }

  /** Dropping empty pieces distributes over concatenation, so order and repeats are kept. */
  lemma {:induction false} RemoveEmptyAppend(a: seq<string>, b: seq<string>)
    ensures RemoveEmpty(a + b) == RemoveEmpty(a) + RemoveEmpty(b)
    decreases |a|
  {
    if a == [] {
      assert a + b == b;
    } else {
      assert (a + b)[0] == a[0] && (a + b)[1..] == a[1..] + b;
      RemoveEmptyAppend(a[1..], b);
    }
  }

  /** A text without separators is one piece. */
  lemma {:induction false} SplitFree(s: string, seps: set<char>)
    requires Free(s, seps)
    ensures Split(s, seps) == [s]
    decreases |s|
  {
    if s != [] {
      assert s[0] in s;
      assert forall ch :: ch in s[1..] ==> ch in s;
      SplitFree(s[1..], seps);
      assert [s[0]] + s[1..] == s;
    }
  }

  lemma ExtendFirst(x: string, ra: seq<string>, rb: seq<string>)
    requires |ra| >= 1
    ensures ([x + ra[0]] + ra[1..]) + rb == [x + (ra + rb)[0]] + (ra + rb)[1..]
  {
    assert (ra + rb)[0] == ra[0];
    assert (ra + rb)[1..] == ra[1..] + rb;
  }

  /** Splitting cuts the text at every separator: the pieces on either side of one are split independently. */
  lemma {:induction false} SplitAtSeparator(a: string, c: char, b: string, seps: set<char>)
    requires c in seps
    ensures Split(a + [c] + b, seps) == Split(a, seps) + Split(b, seps)
    decreases |a|
  {
    var s := a + [c] + b;
    if a == [] {
      assert s == [c] + b && s[1..] == b;
    } else {
      assert s[0] == a[0] && s[1..] == a[1..] + [c] + b;
      SplitAtSeparator(a[1..], c, b, seps);
      var ra := Split(a[1..], seps);
      var rb := Split(b, seps);
      assert Split(s[1..], seps) == ra + rb;
      if a[0] in seps {
        assert Split(a, seps) == [""] + ra;
        assert Split(s, seps) == [""] + (ra + rb);
        assert [""] + (ra + rb) == ([""] + ra) + rb;
      } else {
        assert Split(a, seps) == [[a[0]] + ra[0]] + ra[1..];
        assert Split(s, seps) == [[a[0]] + (ra + rb)[0]] + (ra + rb)[1..];
        ExtendFirst([a[0]], ra, rb);
      }
    }
  }

  /** A text without line breaks is no line when empty and one line otherwise. */
  lemma LinesOfBreakFree(s: string)
    requires Free(s, LineBreaks)
    ensures Lines(s) == if s == "" then [] else [s]
  {
    SplitFree(s, LineBreaks);
    assert [s][1..] == [];
    assert RemoveEmpty([s]) == (if s == "" then [] else [s]) + RemoveEmpty([]);
  }

  /** The text is cut at every line break: the text on either side of one is split into lines independently. */
  lemma LinesCutAtBreak(a: string, c: char, b: string)
    requires c in LineBreaks
    ensures Lines(a + [c] + b) == Lines(a) + Lines(b)
  {
    SplitAtSeparator(a, c, b, LineBreaks);
    RemoveEmptyAppend(Split(a, LineBreaks), Split(b, LineBreaks));
  }

  /** The lines of a text, glued back together, are the text without its line breaks. */
  lemma LinesKeepText(text: string)
    ensures Concat(Lines(text)) == Strip(text, LineBreaks)
  {
    ConcatRemoveEmpty(Split(text, LineBreaks));
    ConcatSplit(text, LineBreaks);
  }
}
