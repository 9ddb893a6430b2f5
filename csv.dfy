/**
 * The recording format and what one load makes of it. A data line reads
 *   frame, time, (rotX, rotY, rotZ, rotW, posX, posY, posZ) x boneCount
 * The frame column is never read; the float parser is a parameter, since
 * parsing decimal text into a float is outside this model.
 */
module Csv {
  import opened Wrappers
  import opened Text

  /** Unity's Quaternion, stored and copied only: its four components as read. */
  datatype Quaternion = Quaternion(x: real, y: real, z: real, w: real)

  /** Unity's Vector3, stored and copied only. */
  datatype Vector3 = Vector3(x: real, y: real, z: real)

  /** One recorded pose: its time and one rotation and one position per joint. */
  datatype FrameData = FrameData(time: real, rotations: seq<Quaternion>, positions: seq<Vector3>)

  /** float.TryParse / float.Parse with the invariant culture: a value, or no value for malformed text. */
  type FloatParser = string -> Option<real>

  /** The two leading columns: the frame number and the time. */
  const LeadColumns: nat := 2

  /** Columns per joint: four rotation components, then three position components. */
  const JointColumns: nat := 7

  /** The least number of tokens a data line must have. */
  function ExpectedTokens(boneCount: nat): nat
  {
    LeadColumns + boneCount * JointColumns
  }

  /** First column of joint `j`. */
  function JointBase(j: nat): nat
  {
    LeadColumns + j * JointColumns
  }

  /** A frame with one rotation and one position per joint. */
  predicate Shaped(fd: FrameData, boneCount: nat)
  {
    |fd.rotations| == boneCount && |fd.positions| == boneCount
  }

  /** The seven values of joint `j`, or None when one of its columns does not parse. */
  function ParseJoint(tokens: seq<string>, j: nat, parse: FloatParser): Option<(Quaternion, Vector3)>
    requires JointBase(j) + JointColumns <= |tokens|
  {
    var b := JointBase(j);
    var rx := parse(tokens[b]);
    var ry := parse(tokens[b + 1]);
    var rz := parse(tokens[b + 2]);
    var rw := parse(tokens[b + 3]);
    var px := parse(tokens[b + 4]);
    var py := parse(tokens[b + 5]);
    var pz := parse(tokens[b + 6]);
    if rx.Some? && ry.Some? && rz.Some? && rw.Some? && px.Some? && py.Some? && pz.Some? then
      Some((Quaternion(rx.value, ry.value, rz.value, rw.value), Vector3(px.value, py.value, pz.value)))
    else
      None
  }

  /** The rotations and positions of joints 0 .. n-1, or None when one of their columns does not parse. */
  function ParseJoints(tokens: seq<string>, n: nat, parse: FloatParser): (r: Option<(seq<Quaternion>, seq<Vector3>)>)
    requires ExpectedTokens(n) <= |tokens|
    ensures r.Some? ==> |r.value.0| == n && |r.value.1| == n
    decreases n
  {
    if n == 0 then Some(([], []))
    else
      match ParseJoints(tokens, n - 1, parse)
      case None => None
      case Some(done) =>
        match ParseJoint(tokens, n - 1, parse)
        case None => None
        case Some(joint) => Some((done.0 + [joint.0], done.1 + [joint.1]))
  }

  /** What one data line yields. FormatError stands for the exception float.Parse throws. */
  datatype RowResult = Frame(frame: FrameData) | InsufficientData | BadTime | FormatError

  /** One data line, already split into tokens. */
  function ParseTokens(tokens: seq<string>, boneCount: nat, parse: FloatParser): (r: RowResult)
    ensures r.Frame? ==> Shaped(r.frame, boneCount)
  {
    if |tokens| < ExpectedTokens(boneCount) then InsufficientData
    else
      match parse(tokens[1])
      case None => BadTime
      case Some(time) =>
        match ParseJoints(tokens, boneCount, parse)
        case None => FormatError
        case Some(joints) => Frame(FrameData(time, joints.0, joints.1))
  }

  function ParseRow(line: string, boneCount: nat, parse: FloatParser): RowResult
  {
    ParseTokens(Tokens(line), boneCount, parse)
  }

  /** The frames a run of data lines appended, and whether a FormatError ended it. */
  datatype Load = Load(frames: seq<FrameData>, aborted: bool)

  /** The result of each data line, in line order. */
  function RowResults(rows: seq<string>, boneCount: nat, parse: FloatParser): (rs: seq<RowResult>)
    ensures |rs| == |rows|
    ensures forall k :: 0 <= k < |rows| ==> rs[k] == ParseRow(rows[k], boneCount, parse)
  {
    seq(|rows|, k requires 0 <= k < |rows| => ParseRow(rows[k], boneCount, parse))
  }

  /**
   * Line results taken in order, as the player's loop does: each frame is
   * appended, short lines and bad times are skipped, and the first
   * FormatError stops the run with the frames read so far.
   */
  function Collect(rs: seq<RowResult>): Load
    decreases |rs|
  {
    if rs == [] then Load([], false) else Step(Collect(rs[..|rs| - 1]), rs[|rs| - 1])
  }

  /** One more line result: nothing changes once aborted. */
  function Step(prev: Load, r: RowResult): Load
  {
    if prev.aborted then prev
    else
      match r
      case Frame(fd) => Load(prev.frames + [fd], false)
      case FormatError => Load(prev.frames, true)
      case _ => prev
  }

  /** Before any FormatError, a Step appends the line's frame, if any, and aborts exactly on a FormatError. */
  lemma StepAppends(prev: Load, r: RowResult)
    requires !prev.aborted
    ensures Step(prev, r).aborted <==> r.FormatError?
    ensures Step(prev, r).frames == prev.frames + (if r.Frame? then [r.frame] else [])
  {
  }

  /** The data lines of a file (the lines after the header), read in order: one Step per line. */
  function ParseRows(rows: seq<string>, boneCount: nat, parse: FloatParser): (r: Load)
    ensures forall k :: 0 <= k < |r.frames| ==> Shaped(r.frames[k], boneCount)
    decreases |rows|
  {
    if rows == [] then Load([], false)
    else Step(ParseRows(rows[..|rows| - 1], boneCount, parse), ParseRow(rows[|rows| - 1], boneCount, parse))
  }

  /** Reading the lines one Step at a time is collecting their results in order. */
  lemma {:induction false} ParseRowsCollects(rows: seq<string>, boneCount: nat, parse: FloatParser)
    ensures ParseRows(rows, boneCount, parse) == Collect(RowResults(rows, boneCount, parse))
    decreases |rows|
  {
    if rows != [] {
      ParseRowsCollects(rows[..|rows| - 1], boneCount, parse);
      var rs := RowResults(rows, boneCount, parse);
      assert rs[..|rs| - 1] == RowResults(rows[..|rows| - 1], boneCount, parse);
    }
  }

  /** A whole file: the header line is dropped, and fewer than two lines yield nothing. */
  function LoadText(text: string, boneCount: nat, parse: FloatParser): (r: Load)
    ensures forall k :: 0 <= k < |r.frames| ==> Shaped(r.frames[k], boneCount)
  {
    var lines := Lines(text);
    if |lines| < 2 then Load([], false) else ParseRows(lines[1..], boneCount, parse)
  }

  // ----- Reference definitions -----

  /** The frames the results carry, in order: a plain filter. */
  function Kept(rs: seq<RowResult>): seq<FrameData>
    decreases |rs|
  {
    if rs == [] then []
    else (if rs[0].Frame? then [rs[0].frame] else []) + Kept(rs[1..])
  }

  /** Index of the first FormatError, or |rs| when there is none. */
  function FirstError(rs: seq<RowResult>): (k: nat)
    ensures k <= |rs|
    ensures k < |rs| ==> rs[k].FormatError?
    ensures forall i :: 0 <= i < k ==> !rs[i].FormatError?
    decreases |rs|
  {
    if rs == [] then 0
    else if rs[0].FormatError? then 0
    else 1 + FirstError(rs[1..])
  }

  // ----- Properties -----

  lemma {:induction false} KeptSnoc(rs: seq<RowResult>, r: RowResult)
    ensures Kept(rs + [r]) == Kept(rs) + Kept([r])
    decreases |rs|
  {
    if rs == [] {
      assert rs + [r] == [r];
    } else {
      assert (rs + [r])[0] == rs[0];
      assert (rs + [r])[1..] == rs[1..] + [r];
      KeptSnoc(rs[1..], r);
    }
  }

  /** A result appended after a FormatError moves neither the first error nor the prefix before it. */
  lemma FirstErrorSnoc(rs: seq<RowResult>, r: RowResult)
    requires FirstError(rs) < |rs|
    ensures FirstError(rs + [r]) == FirstError(rs)
    ensures (rs + [r])[..FirstError(rs)] == rs[..FirstError(rs)]
  {
    var k := FirstError(rs);
    assert (rs + [r])[k] == rs[k];
    assert forall i :: 0 <= i < k ==> (rs + [r])[i] == rs[i];
  }

  /** With no FormatError so far, the first error of a longer run is the new result, if it is one. */
  lemma FirstErrorClean(rs: seq<RowResult>, r: RowResult)
    requires FirstError(rs) == |rs|
    ensures FirstError(rs + [r]) == if r.FormatError? then |rs| else |rs| + 1
  {
    var all := rs + [r];
    assert forall i :: 0 <= i < |rs| ==> all[i] == rs[i];
    assert all[|rs|] == r;
  }

  /** With no FormatError so far, one more Step matches the filter of the longer run. */
  lemma CleanSnoc(rs: seq<RowResult>, r: RowResult)
    requires FirstError(rs) == |rs|
    ensures var k := FirstError(rs + [r]);
            Step(Load(Kept(rs), false), r) == Load(Kept((rs + [r])[..k]), k < |rs| + 1)
  {
    var all := rs + [r];
    FirstErrorClean(rs, r);
    if r.FormatError? {
      assert all[..|rs|] == rs;
    } else {
      KeptSnoc(rs, r);
      assert [r][1..] == [];
      assert all[..|all|] == all;
    }
  }

  /**
   * The loop-shaped reading is the filter of the results before the first
   * FormatError: frames keep input order, nothing is sorted or merged, and
   * a FormatError ends the run with the frames before it kept.
   */
  lemma {:induction false} CollectIsFilter(rs: seq<RowResult>)
    ensures var k := FirstError(rs);
            Collect(rs) == Load(Kept(rs[..k]), k < |rs|)
    decreases |rs|
  {
    if rs != [] {
      var init := rs[..|rs| - 1];
      var last := rs[|rs| - 1];
      CollectIsFilter(init);
      assert rs == init + [last];
      if FirstError(init) < |init| {
        FirstErrorSnoc(init, last);
      } else {
        assert init[..FirstError(init)] == init;
        CleanSnoc(init, last);
      }
    }
  }

  /** Reading one more data line is one Step. */
  lemma ParseRowsSnoc(rows: seq<string>, row: string, boneCount: nat, parse: FloatParser)
    ensures ParseRows(rows + [row], boneCount, parse)
         == Step(ParseRows(rows, boneCount, parse), ParseRow(row, boneCount, parse))
  {
    assert (rows + [row])[..|rows|] == rows;
  }

  /** Reading the first i + 1 data lines is reading the first i and taking one Step with line i. */
  lemma ParseRowsPrefix(rows: seq<string>, i: nat, boneCount: nat, parse: FloatParser)
    requires i < |rows|
    ensures ParseRows(rows[..i + 1], boneCount, parse)
         == Step(ParseRows(rows[..i], boneCount, parse), ParseRow(rows[i], boneCount, parse))
  {
    assert rows[..i + 1][..i] == rows[..i];
  }

  /** Once a FormatError has ended the run, later lines change nothing. */
  lemma {:induction false} AbortSticks(rows: seq<string>, more: seq<string>, boneCount: nat, parse: FloatParser)
    requires ParseRows(rows, boneCount, parse).aborted
    ensures ParseRows(rows + more, boneCount, parse) == ParseRows(rows, boneCount, parse)
    decreases |more|
  {
    if more != [] {
      var init := more[..|more| - 1];
      AbortSticks(rows, init, boneCount, parse);
      assert rows + more == (rows + init) + [more[|more| - 1]];
      ParseRowsSnoc(rows + init, more[|more| - 1], boneCount, parse);
    } else {
      assert rows + more == rows;
    }
  }

  /** Reading a file's data lines keeps, in line order, the frames of the lines before the first one that throws. */
  lemma ParseRowsIsFilter(rows: seq<string>, boneCount: nat, parse: FloatParser)
    ensures var rs := RowResults(rows, boneCount, parse);
            var k := FirstError(rs);
            ParseRows(rows, boneCount, parse) == Load(Kept(rs[..k]), k < |rows|)
  {
    ParseRowsCollects(rows, boneCount, parse);
    CollectIsFilter(RowResults(rows, boneCount, parse));
  }

  /** Joint parsing succeeds exactly when every joint column parses. */
  lemma {:induction false} JointsParseIff(tokens: seq<string>, n: nat, parse: FloatParser)
    requires ExpectedTokens(n) <= |tokens|
    ensures ParseJoints(tokens, n, parse).Some?
        <==> forall k :: LeadColumns <= k < ExpectedTokens(n) ==> parse(tokens[k]).Some?
    decreases n
  {
    if n > 0 {
      JointsParseIff(tokens, n - 1, parse);
      var b := JointBase(n - 1);
      assert b + JointColumns == ExpectedTokens(n);
      if ParseJoints(tokens, n, parse).Some? {
        assert ParseJoint(tokens, n - 1, parse).Some?;
        forall k | LeadColumns <= k < ExpectedTokens(n) ensures parse(tokens[k]).Some? {
          if k >= b {
            assert k == b || k == b + 1 || k == b + 2 || k == b + 3 || k == b + 4 || k == b + 5 || k == b + 6;
          }
        }
      }
    }
  }

  /** Every column of joint `j` parses. */
  predicate JointColumnsParse(tokens: seq<string>, j: nat, parse: FloatParser)
    requires JointBase(j) + JointColumns <= |tokens|
  {
    var b := JointBase(j);
    && parse(tokens[b]).Some? && parse(tokens[b + 1]).Some? && parse(tokens[b + 2]).Some?
    && parse(tokens[b + 3]).Some? && parse(tokens[b + 4]).Some? && parse(tokens[b + 5]).Some?
    && parse(tokens[b + 6]).Some?
  }

  /** Joint j of a parsed line takes its rotation from columns 2+7j .. 2+7j+3 and its position from 2+7j+4 .. 2+7j+6. */
  lemma {:induction false} JointColumnsLayout(tokens: seq<string>, n: nat, parse: FloatParser, j: nat)
    requires ExpectedTokens(n) <= |tokens| && j < n
    requires ParseJoints(tokens, n, parse).Some?
    ensures JointBase(j) + JointColumns <= |tokens|
    ensures JointColumnsParse(tokens, j, parse)
    ensures var b := JointBase(j);
            var qs := ParseJoints(tokens, n, parse).value.0;
            var ps := ParseJoints(tokens, n, parse).value.1;
            && qs[j] == Quaternion(parse(tokens[b]).value, parse(tokens[b + 1]).value,
                                   parse(tokens[b + 2]).value, parse(tokens[b + 3]).value)
            && ps[j] == Vector3(parse(tokens[b + 4]).value, parse(tokens[b + 5]).value, parse(tokens[b + 6]).value)
    decreases n
  {
    assert JointBase(n - 1) + JointColumns == ExpectedTokens(n);
    if j < n - 1 {
      JointColumnsLayout(tokens, n - 1, parse, j);
    } else {
      assert ParseJoint(tokens, n - 1, parse).Some?;
    }
  }

  /**
   * A data line becomes a frame exactly when it has enough tokens and its
   * time and every joint column parse; the frame's time is column 1, and
   * column 0 is never read.
   */
  lemma RowBecomesFrameIff(tokens: seq<string>, boneCount: nat, parse: FloatParser)
    ensures ParseTokens(tokens, boneCount, parse).Frame?
        <==> && |tokens| >= ExpectedTokens(boneCount)
             && parse(tokens[1]).Some?
             && forall k :: LeadColumns <= k < ExpectedTokens(boneCount) ==> parse(tokens[k]).Some?
    ensures ParseTokens(tokens, boneCount, parse).Frame? ==>
              ParseTokens(tokens, boneCount, parse).frame.time == parse(tokens[1]).value
  {
    if |tokens| >= ExpectedTokens(boneCount) {
      JointsParseIff(tokens, boneCount, parse);
    }
  }

  /**
   * A line throws exactly when it has enough tokens, its time parses, and
   * some joint column does not.
   */
  lemma RowThrowsIff(tokens: seq<string>, boneCount: nat, parse: FloatParser)
    ensures ParseTokens(tokens, boneCount, parse).FormatError?
        <==> && |tokens| >= ExpectedTokens(boneCount)
             && parse(tokens[1]).Some?
             && exists k :: LeadColumns <= k < ExpectedTokens(boneCount) && parse(tokens[k]).None?
  {
    if |tokens| >= ExpectedTokens(boneCount) {
      JointsParseIff(tokens, boneCount, parse);
    }
  }

  lemma {:induction false} JointsReadOnlyTheirColumns(a: seq<string>, b: seq<string>, n: nat, parse: FloatParser)
    requires ExpectedTokens(n) <= |a| && ExpectedTokens(n) <= |b|
    requires forall k :: LeadColumns <= k < ExpectedTokens(n) ==> a[k] == b[k]
    ensures ParseJoints(a, n, parse) == ParseJoints(b, n, parse)
    decreases n
  {
    if n > 0 {
      JointsReadOnlyTheirColumns(a, b, n - 1, parse);
      var base := JointBase(n - 1);
      assert ExpectedTokens(n) == base + JointColumns;
      assert ParseJoint(a, n - 1, parse) == ParseJoint(b, n - 1, parse);
    }
  }

  /**
   * Only columns 1 .. 2+7n-1 matter: the frame-number column and any
   * columns past the expected count are ignored.
   */
  lemma ParseReadsOnlyLayoutColumns(a: seq<string>, b: seq<string>, boneCount: nat, parse: FloatParser)
    requires ExpectedTokens(boneCount) <= |a| && ExpectedTokens(boneCount) <= |b|
    requires forall k :: 1 <= k < ExpectedTokens(boneCount) ==> a[k] == b[k]
    ensures ParseTokens(a, boneCount, parse) == ParseTokens(b, boneCount, parse)
  {
    JointsReadOnlyTheirColumns(a, b, boneCount, parse);
  }

  /** A file of fewer than two non-empty lines (at most a header) yields no frames. */
  lemma HeaderOnlyLoadsNothing(text: string, boneCount: nat, parse: FloatParser)
    requires |Lines(text)| < 2
    ensures LoadText(text, boneCount, parse) == Load([], false)
  {
  }
}
