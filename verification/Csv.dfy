/** The text of rows: printing fields with separators, and parsing them back. */
module Csv {
  import opened Nor
  import opened LogText

  type Field = seq<bv8>

  /** Text as logData leaves it: separator-free and storable. */
  ghost predicate IsField(f: Field)
  {
    IsClean(f, true) && Storable(f)
  }

  ghost predicate AllFields(fields: seq<Field>)
  {
    forall i :: 0 <= i < |fields| ==> IsField(fields[i])
  }

  function Join(fields: seq<Field>): seq<bv8>
  {
    if fields == [] then []
    else if |fields| == 1 then fields[0]
    else Join(fields[..|fields| - 1]) + [COMMA] + fields[|fields| - 1]
  }

  function Line(fields: seq<Field>): seq<bv8> { Join(fields) + [NEWLINE] }

  /** A line in bytes: its first field, then a comma and the rest, or a newline. */
  lemma {:induction false} LineOf(f: Field, rest: seq<Field>)
    ensures Line([f] + rest) == if rest == [] then f + [0x0A] else f + [0x2C] + Line(rest)
  {
    var all := [f] + rest;
    if |rest| == 1 {
      assert all[..|all| - 1] == [f] && all[|all| - 1] == rest[0];
      assert Join(all) == Join([f]) + [COMMA] + rest[0] && Join([f]) == f && Join(rest) == rest[0];
      assert f + [0x2C] + rest[0] + [0x0A] == f + [0x2C] + (rest[0] + [0x0A]);
    } else if |rest| > 1 {
      var n := |rest| - 1;
      LineOf(f, rest[..n]);
      assert all[..|all| - 1] == [f] + rest[..n];
      assert Line([f] + rest[..n]) == f + [0x2C] + Line(rest[..n]);
      JoinOf([f] + rest[..n], f + [0x2C], rest[..n]);
      assert f + [0x2C] + Join(rest[..n]) + [COMMA] + rest[n] + [0x0A]
          == f + [0x2C] + (Join(rest[..n]) + [COMMA] + rest[n] + [0x0A]);
    } else {
      assert all == [f];
    }
  }

  lemma JoinOf(all: seq<Field>, first: seq<bv8>, rest: seq<Field>)
    requires Line(all) == first + Line(rest)
    ensures Join(all) == first + Join(rest)
  {
    var n := |Line(all)| - 1;
    assert Join(all) == Line(all)[..n] == (first + Line(rest))[..n] == first + Join(rest);
  }

  function Render(lines: seq<seq<Field>>): seq<bv8>
  {
    if lines == [] then [] else Render(lines[..|lines| - 1]) + Line(lines[|lines| - 1])
  }

  /** The parts of s between occurrences of c. */
  function SplitOn(s: seq<bv8>, c: bv8): (r: seq<seq<bv8>>)
    ensures |r| >= 1
  {
    if s == [] then [[]] else Push(s[0], c, SplitOn(s[1..], c))
  }

  function Push(x: bv8, c: bv8, parts: seq<seq<bv8>>): (r: seq<seq<bv8>>)
    requires |parts| >= 1
    ensures |r| >= 1
  {
    if x == c then [[]] + parts else [[x] + parts[0]] + parts[1..]
  }

  /** Each line is ended by a newline and split at commas. */
  function ParseLines(parts: seq<seq<bv8>>): (r: seq<seq<Field>>)
    ensures |r| == |parts|
  {
    seq(|parts|, i requires 0 <= i < |parts| => SplitOn(parts[i], COMMA))
  }

  function Parse(text: seq<bv8>): seq<seq<Field>>
  {
    var parts := SplitOn(text, NEWLINE);
    ParseLines(parts[..|parts| - 1])
  }

  /** The parts of two texts put together: the last and the first part become one. */
  function Glue(a: seq<seq<bv8>>, b: seq<seq<bv8>>): seq<seq<bv8>>
    requires |a| >= 1 && |b| >= 1
  {
    a[..|a| - 1] + [a[|a| - 1] + b[0]] + b[1..]
  }

  lemma PushGlue(x: bv8, c: bv8, a: seq<seq<bv8>>, b: seq<seq<bv8>>)
    requires |a| >= 1 && |b| >= 1
    ensures Push(x, c, Glue(a, b)) == Glue(Push(x, c, a), b)
  {
    if x == c {
      assert ([[]] + a)[..|a|] == [[]] + a[..|a| - 1];
    } else if |a| == 1 {
      assert [x] + (a[0] + b[0]) == [x] + a[0] + b[0];
    } else {
      FirstGlue([x] + a[0], a, b);
    }
  }

  /** Only the first part is replaced, if it is not also the last. */
  lemma FirstGlue(first: seq<bv8>, a: seq<seq<bv8>>, b: seq<seq<bv8>>)
    requires |a| > 1 && |b| >= 1
    ensures [first] + Glue(a, b)[1..] == Glue([first] + a[1..], b) && Glue(a, b)[0] == a[0]
  {
    var p := [first] + a[1..];
    assert p[..|p| - 1] == [first] + a[1..|a| - 1];
    assert Glue(a, b)[1..] == a[1..|a| - 1] + [a[|a| - 1] + b[0]] + b[1..];
  }

  lemma {:induction false} SplitAppend(s: seq<bv8>, t: seq<bv8>, c: bv8)
    ensures SplitOn(s + t, c) == Glue(SplitOn(s, c), SplitOn(t, c))
  {
    if s == [] {
      assert s + t == t && [] + SplitOn(t, c)[0] == SplitOn(t, c)[0];
    } else {
      assert (s + t)[1..] == s[1..] + t;
      SplitAppend(s[1..], t, c);
      PushGlue(s[0], c, SplitOn(s[1..], c), SplitOn(t, c));
      hide Push, Glue;
    }
  }

  /** A last part is completed by a separator and by the part after it. */
  lemma GlueSeparator(a: seq<seq<bv8>>, f: seq<bv8>)
    requires |a| >= 1
    ensures Glue(a, [[], f]) == a + [f]
  {
    assert a[|a| - 1] + [] == a[|a| - 1];
  }

  lemma {:induction false} SplitNothing(s: seq<bv8>, c: bv8)
    requires c !in s
    ensures SplitOn(s, c) == [s]
  {
    if s != [] {
      SplitNothing(s[1..], c);
      assert [s[0]] + s[1..] == s;
    }
  }

  lemma {:induction false} OnePart(s: seq<bv8>, c: bv8)
    ensures |SplitOn(s, c)| == 1 ==> SplitOn(s, c)[0] == s
  {
    if s != [] {
      OnePart(s[1..], c);
      assert [s[0]] + s[1..] == s;
    }
  }

  /** A separator after s starts a new part. */
  lemma SplitSeparator(s: seq<bv8>, c: bv8, f: seq<bv8>)
    requires c !in f
    ensures SplitOn(s + [c] + f, c) == SplitOn(s, c) + [f]
  {
    SplitNothing(f, c);
    assert ([c] + f)[1..] == f;
    assert SplitOn([c] + f, c) == [[], f];
    SplitAppend(s, [c] + f, c);
    assert s + [c] + f == s + ([c] + f);
    GlueSeparator(SplitOn(s, c), f);
    hide Glue, SplitOn;
  }

  lemma {:induction false} SplitJoin(fields: seq<Field>)
    requires fields != [] && forall i :: 0 <= i < |fields| ==> COMMA !in fields[i]
    ensures SplitOn(Join(fields), COMMA) == fields
  {
    if |fields| == 1 {
      SplitNothing(fields[0], COMMA);
    } else {
      var n := |fields| - 1;
      SplitJoin(fields[..n]);
      SplitSeparator(Join(fields[..n]), COMMA, fields[n]);
    }
  }

  lemma {:induction false} JoinHasNo(fields: seq<Field>, c: bv8)
    requires c != COMMA && forall i :: 0 <= i < |fields| ==> c !in fields[i]
    ensures c !in Join(fields)
  {
    if |fields| > 1 {
      JoinHasNo(fields[..|fields| - 1], c);
    }
  }

  /** Parsing what was printed gives the same lines and fields. */
  lemma {:induction false} ParseRender(lines: seq<seq<Field>>)
    requires forall i :: 0 <= i < |lines| ==> lines[i] != [] && AllFields(lines[i])
    ensures SplitOn(Render(lines), NEWLINE)[|SplitOn(Render(lines), NEWLINE)| - 1] == []
    ensures Parse(Render(lines)) == lines
  {
    if lines != [] {
      var n := |lines| - 1;
      ParseRender(lines[..n]);
      var before, join := Render(lines[..n]), Join(lines[n]);
      FieldsPlain(lines[n]);
      JoinHasNo(lines[n], NEWLINE);
      SplitJoin(lines[n]);
      LineAdded(before, join);
      var parts := SplitOn(before, NEWLINE);
      assert SplitOn(Render(lines), NEWLINE) == parts[..|parts| - 1] + [join] + [[]];
      ParseConcat(parts[..|parts| - 1], [join]);
      ParseOne(join);
      hide SplitOn, Join, Render, ParseLines, AllFields;
      assert lines == lines[..n] + [lines[n]];
    }
  }

  /** A line behind a text that ends between lines. */
  lemma LineAdded(before: seq<bv8>, join: seq<bv8>)
    requires NEWLINE !in join
    ensures var parts := SplitOn(before, NEWLINE);
            parts[|parts| - 1] == [] ==>
              SplitOn(before + (join + [NEWLINE]), NEWLINE) == parts[..|parts| - 1] + [join] + [[]]
  {
    hide SplitOn, Glue;
    SplitNothing(join, NEWLINE);
    SplitAppend(before, join, NEWLINE);
    SplitSeparator(before + join, NEWLINE, []);
    assert before + (join + [NEWLINE]) == before + join + [NEWLINE] + [];
    GlueLast(SplitOn(before, NEWLINE), join);
  }

  lemma GlueLast(parts: seq<seq<bv8>>, join: seq<bv8>)
    requires |parts| >= 1
    ensures parts[|parts| - 1] == [] ==> Glue(parts, [join]) == parts[..|parts| - 1] + [join]
  {
    assert [] + join == join;
  }

  /** The line that a text breaks off in. */
  function Tail(text: seq<bv8>): (r: seq<bv8>)
  {
    var parts := SplitOn(text, NEWLINE);
    parts[|parts| - 1]
  }

  /** Lines printed behind a line that broke off: the first becomes part of it. */
  function Continued(tail: seq<bv8>, lines: seq<seq<Field>>): seq<seq<Field>>
  {
    if lines == [] || lines[0] == [] then lines else [Glue(SplitOn(tail, COMMA), lines[0])] + lines[1..]
  }

  /** Parsing what was printed behind any text. */
  lemma ParseOnto(base: seq<bv8>, lines: seq<seq<Field>>)
    requires forall i :: 0 <= i < |lines| ==> lines[i] != [] && AllFields(lines[i])
    ensures Parse(base + Render(lines)) == Parse(base) + Continued(Tail(base), lines)
    ensures base == [] || base[|base| - 1] == NEWLINE ==> Continued(Tail(base), lines) == lines
  {
    hide *;
    ParseRender(lines);
    OntoText(base, Render(lines), lines);
    NoTail(base);
    ContinuedWhole(lines);
  }

  lemma OntoText(base: seq<bv8>, text: seq<bv8>, lines: seq<seq<Field>>)
    requires SplitOn(text, NEWLINE)[|SplitOn(text, NEWLINE)| - 1] == [] && Parse(text) == lines
    ensures Parse(base + text) == Parse(base) + Continued(Tail(base), lines)
  {
    hide *;
    SplitAppend(base, text, NEWLINE);
    ParseParts(base);
    ParseParts(text);
    ParseParts(base + text);
    ContinuedParts(SplitOn(base, NEWLINE), SplitOn(text, NEWLINE), lines);
  }

  lemma ParseParts(text: seq<bv8>)
    ensures var parts := SplitOn(text, NEWLINE);
            Parse(text) == ParseLines(parts[..|parts| - 1]) && Tail(text) == parts[|parts| - 1]
  {
    hide SplitOn, ParseLines;
  }

  lemma ContinuedParts(a: seq<seq<bv8>>, b: seq<seq<bv8>>, lines: seq<seq<Field>>)
    requires |a| >= 1 && |b| >= 1 && b[|b| - 1] == [] && ParseLines(b[..|b| - 1]) == lines
    ensures var parts := Glue(a, b);
            ParseLines(parts[..|parts| - 1]) == ParseLines(a[..|a| - 1]) + Continued(a[|a| - 1], lines)
  {
    hide SplitOn, ParseLines, Glue;
    var n := |b| - 1;
    GlueFront(a, b);
    if n > 0 {
      var front, joined := a[..|a| - 1], a[|a| - 1] + b[0];
      ParseConcat(front, [joined] + b[1..n]);
      ParseConcat([joined], b[1..n]);
      ParseConcat([b[0]], b[1..n]);
      ParseOne(joined);
      ParseOne(b[0]);
      SplitAppend(a[|a| - 1], b[0], COMMA);
      assert b[..n] == [b[0]] + b[1..n];
    } else {
      assert a[..|a| - 1] + [] == a[..|a| - 1];
    }
  }

  lemma GlueFront(a: seq<seq<bv8>>, b: seq<seq<bv8>>)
    requires |a| >= 1 && |b| >= 1
    ensures var parts, n := Glue(a, b), |b| - 1;
            && |parts| >= 1
            && parts[..|parts| - 1] == a[..|a| - 1] + if n > 0 then [a[|a| - 1] + b[0]] + b[1..n] else []
  {}

  lemma ParseConcat(a: seq<seq<bv8>>, b: seq<seq<bv8>>)
    ensures ParseLines(a + b) == ParseLines(a) + ParseLines(b)
  {
    hide SplitOn;
  }

  lemma ParseOne(part: seq<bv8>)
    ensures ParseLines([part]) == [SplitOn(part, COMMA)]
  {
    hide SplitOn;
  }

  lemma ContinuedWhole(lines: seq<seq<Field>>)
    ensures Continued([], lines) == lines
  {
    if lines != [] && lines[0] != [] {
      assert SplitOn([], COMMA) == [[]];
      assert [] + lines[0][0] == lines[0][0];
      assert Glue([[]], lines[0]) == lines[0];
    }
  }

  /** A text ends between lines if it is empty or ends in a newline. */
  lemma NoTail(text: seq<bv8>)
    ensures text == [] || text[|text| - 1] == NEWLINE ==> Tail(text) == []
  {
    if text != [] && text[|text| - 1] == NEWLINE {
      var n := |text| - 1;
      SplitSeparator(text[..n], NEWLINE, []);
      assert text[..n] + [NEWLINE] + [] == text;
    }
  }

  lemma FieldsPlain(fields: seq<Field>)
    requires AllFields(fields)
    ensures forall i :: 0 <= i < |fields| ==> COMMA !in fields[i] && NEWLINE !in fields[i] && 0 !in fields[i]
  {
    forall i, c: bv8 | 0 <= i < |fields| && (c == COMMA || c == NEWLINE || c == 0) ensures c !in fields[i] {
      assert IsField(fields[i]);
      forall k | 0 <= k < |fields[i]| ensures fields[i][k] != c {
        assert !Dirty(fields[i], k, true);
      }
    }
  }

  lemma NoArrowAcross(s: seq<bv8>, t: seq<bv8>, c: bv8, i: int)
    requires c != DASH && c != GREATER && !ArrowAt(s, i) && !ArrowAt(t, i - |s| - 1)
    ensures !ArrowAt(s + [c] + t, i)
  {}

  /** A printed line is left alone by the cleaning that logString applies. */
  lemma {:induction false} JoinClean(fields: seq<Field>)
    requires AllFields(fields)
    ensures IsClean(Join(fields), false) && Storable(Join(fields))
  {
    if |fields| == 1 {
      FieldClean(fields[0]);
    } else if |fields| > 1 {
      var n := |fields| - 1;
      JoinClean(fields[..n]);
      FieldClean(fields[n]);
      CleanConcat(Join(fields[..n]), COMMA, fields[n]);
    }
  }

  lemma FieldClean(f: Field)
    requires IsField(f)
    ensures IsClean(f, false) && Storable(f)
  {
    forall i | 0 <= i < |f| ensures !Dirty(f, i, false) {
      assert !Dirty(f, i, true);
    }
  }

  lemma CleanConcat(s: seq<bv8>, c: bv8, t: seq<bv8>)
    requires c == COMMA || c == NEWLINE
    requires IsClean(s, false) && IsClean(t, false) && Storable(s) && Storable(t)
    ensures IsClean(s + [c] + t, false) && Storable(s + [c] + t)
  {
    var r := s + [c] + t;
    forall i: int ensures !ArrowAt(s, i) && !ArrowAt(t, i) {
      CleanNoArrow(s, i);
      CleanNoArrow(t, i);
    }
    forall i | 0 <= i < |r| ensures !Dirty(r, i, false) {
      NoArrowAcross(s, t, c, i);
      NoArrowAcross(s, t, c, i - 1);
      NoArrowAcross(s, t, c, i - 2);
      if i < |s| {
        assert !Dirty(s, i, false);
      } else if i > |s| {
        assert !Dirty(t, i - |s| - 1, false);
      }
    }
  }

  lemma CleanNoArrow(s: seq<bv8>, i: int)
    requires IsClean(s, false)
    ensures !ArrowAt(s, i)
  {
    if 0 <= i < |s| {
      assert !Dirty(s, i, false);
    }
  }

  lemma LineClean(fields: seq<Field>)
    requires AllFields(fields)
    ensures IsClean(Line(fields), false) && Storable(Line(fields)) && Clean(Line(fields), false) == Line(fields)
  {
    JoinClean(fields);
    CleanConcat(Join(fields), NEWLINE, []);
    assert Join(fields) + [NEWLINE] + [] == Line(fields);
    CleanIsClean(Line(fields), false);
  }

  // ----- headings

  /** init overwrites every separator in its copy of the heading text by a zero byte. */
  function Terminated(h: seq<bv8>): (r: seq<bv8>)
    ensures |r| == |h|
    ensures forall i {:trigger r[i]} :: 0 <= i < |h| ==> r[i] == if h[i] == COMMA || h[i] == NEWLINE then 0 else h[i]
  {
    seq(|h|, i requires 0 <= i < |h| => if h[i] == COMMA || h[i] == NEWLINE then 0 else h[i])
  }

  lemma {:induction false} TerminatedParts(keys: seq<Field>)
    requires keys != [] && AllFields(keys)
    ensures SplitOn(Terminated(Join(keys)), 0) == keys
    ensures SplitOn(Terminated(Line(keys)), 0) == keys + [[]]
  {
    FieldsPlain(keys);
    var n := |keys| - 1;
    var last := keys[n];
    assert Terminated(last) == last;
    SplitNothing(last, 0);
    if n > 0 {
      TerminatedParts(keys[..n]);
      assert Terminated(Join(keys)) == Terminated(Join(keys[..n])) + [0] + last;
      SplitSeparator(Terminated(Join(keys[..n])), 0, last);
    }
    assert Terminated(Line(keys)) == Terminated(Join(keys)) + [0] + [];
    SplitSeparator(Terminated(Join(keys)), 0, []);
  }

  /** The keys in a heading text: the parts that a separator ends. */
  function Columns(headers: seq<bv8>): seq<Field>
  {
    var parts := SplitOn(Terminated(headers), 0);
    parts[..|parts| - 1]
  }

  /** Of headings that break off, the complete keys are found. */
  lemma ColumnsBefore(keys: seq<Field>, j: nat)
    requires keys != [] && AllFields(keys) && j <= |Line(keys)|
    ensures exists k :: 0 <= k <= |keys| && Columns(Line(keys)[..j]) == keys[..k]
  {
    var a, b := TornParts(keys, j);
    var k := |a| - 1;
    assert a[..k] == Glue(a, b)[..k] == (keys + [[]])[..k] == keys[..k];
  }

  /** Of headings that have lost their beginning, the keys behind it are found, and a rest of
      the one it went through. */
  lemma ColumnsAfter(keys: seq<Field>, j: nat)
    requires keys != [] && AllFields(keys) && j < |Line(keys)|
    ensures exists i, m :: 0 <= i < |keys| && 0 <= m <= |keys[i]|
                           && Columns(Line(keys)[j..]) == [keys[i][m..]] + keys[i + 1..]
  {
    var a, b := TornParts(keys, j);
    var i, whole := |a| - 1, keys + [[]];
    assert Glue(a, b) == whole && Glue(a, b)[i] == a[i] + b[0] && b[1..] == Glue(a, b)[i + 1..] == whole[i + 1..];
    OnePart(Terminated(Line(keys)[j..]), 0);
    var m := |a[i]|;
    assert b == [keys[i][m..]] + whole[i + 1..];
    assert b[..|b| - 1] == [keys[i][m..]] + keys[i + 1..];
  }

  lemma TornParts(keys: seq<Field>, j: nat) returns (a: seq<seq<bv8>>, b: seq<seq<bv8>>)
    requires keys != [] && AllFields(keys) && j <= |Line(keys)|
    ensures a == SplitOn(Terminated(Line(keys)[..j]), 0) && b == SplitOn(Terminated(Line(keys)[j..]), 0)
    ensures |a| >= 1 && |b| >= 1 && Glue(a, b) == keys + [[]]
  {
    var front, back := Line(keys)[..j], Line(keys)[j..];
    TerminatedParts(keys);
    assert Terminated(Line(keys)) == Terminated(front) + Terminated(back);
    SplitAppend(Terminated(front), Terminated(back), 0);
    a, b := SplitOn(Terminated(front), 0), SplitOn(Terminated(back), 0);
  }
}
