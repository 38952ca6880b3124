/** Text that may appear in the log: cleanBuffer, and the CSV form of rows. */
module LogText {
  import opened Nor

  const DASH: bv8 := 0x2D
  const GREATER: bv8 := 0x3E
  const TAB: bv8 := 0x09
  const COMMA: bv8 := 0x2C
  const NEWLINE: bv8 := 0x0A
  const INVALID: bv8 := 0x5F

  predicate ArrowAt(s: seq<bv8>, i: int) { 0 <= i && i + 2 < |s| && s[i] == DASH && s[i + 1] == DASH
                                          && s[i + 2] == GREATER }

  predicate Separator(c: bv8, removeSeparators: bool) { c == TAB || (removeSeparators && (c == COMMA || c == NEWLINE)) }

  /** Byte i may not be stored: it is part of "-->" or a separator. */
  predicate Dirty(s: seq<bv8>, i: int, removeSeparators: bool)
    requires 0 <= i < |s|
  {
    ArrowAt(s, i) || ArrowAt(s, i - 1) || ArrowAt(s, i - 2) || Separator(s[i], removeSeparators)
  }

  function Clean(s: seq<bv8>, removeSeparators: bool): (r: seq<bv8>)
    ensures |r| == |s|
    ensures forall i {:trigger r[i]} :: 0 <= i < |s| ==> r[i] == if Dirty(s, i, removeSeparators) then INVALID else s[i]
  {
    seq(|s|, i requires 0 <= i < |s| => if Dirty(s, i, removeSeparators) then INVALID else s[i])
  }

  ghost predicate IsClean(s: seq<bv8>, removeSeparators: bool)
  {
    forall i :: 0 <= i < |s| ==> !Dirty(s, i, removeSeparators)
  }

  /** Byte i is one of the three of "-->". */
  ghost predicate InArrow(s: seq<bv8>, i: int)
  {
    exists a :: 0 <= a <= i <= a + 2 < |s| && s[a] == 0x2D && s[a + 1] == 0x2D && s[a + 2] == 0x3E
  }

  /** Neither a tab nor in an arrow; and if separators are to go, neither comma nor newline. */
  ghost predicate Stays(s: seq<bv8>, i: nat, removeSeparators: bool)
    requires i < |s|
  {
    s[i] != 0x09 && (removeSeparators ==> s[i] != 0x2C && s[i] != 0x0A) && !InArrow(s, i)
  }

  /** t is s with an underscore for every byte that may not stay. */
  ghost predicate CleanedTo(s: seq<bv8>, t: seq<bv8>, removeSeparators: bool)
  {
    |t| == |s| && forall i :: 0 <= i < |s| ==> t[i] == if Stays(s, i, removeSeparators) then s[i] else 0x5F
  }

  /** There is no tab and no arrow in t, and no comma and no newline if separators are to go. */
  ghost predicate Harmless(t: seq<bv8>, removeSeparators: bool)
  {
    && (forall i :: 0 <= i < |t| ==> t[i] != 0x09 && (removeSeparators ==> t[i] != 0x2C && t[i] != 0x0A))
    && forall i :: 0 <= i < |t| - 2 ==> !(t[i] == 0x2D && t[i + 1] == 0x2D && t[i + 2] == 0x3E)
  }

  lemma DirtyBytes(s: seq<bv8>, i: nat, removeSeparators: bool)
    requires i < |s|
    ensures Dirty(s, i, removeSeparators) <==> !Stays(s, i, removeSeparators)
  {
    if InArrow(s, i) {
      var a :| 0 <= a <= i <= a + 2 < |s| && s[a] == 0x2D && s[a + 1] == 0x2D && s[a + 2] == 0x3E;
      assert a == i || a == i - 1 || a == i - 2;
    }
    if ArrowAt(s, i - 1) {
      assert s[i - 1] == 0x2D;
    }
    if ArrowAt(s, i - 2) {
      assert s[i - 2] == 0x2D;
    }
  }

  /** What cleaning does, in bytes. */
  lemma CleanBytes(s: seq<bv8>, removeSeparators: bool)
    ensures CleanedTo(s, Clean(s, removeSeparators), removeSeparators)
    ensures Harmless(Clean(s, removeSeparators), removeSeparators)
  {
    var r := Clean(s, removeSeparators);
    CleanIsClean(s, removeSeparators);
    forall i | 0 <= i < |s| ensures r[i] == if Stays(s, i, removeSeparators) then s[i] else 0x5F {
      DirtyBytes(s, i, removeSeparators);
    }
    forall i | 0 <= i < |r| ensures r[i] != 0x09 && (removeSeparators ==> r[i] != 0x2C && r[i] != 0x0A) {
      DirtyBytes(r, i, removeSeparators);
    }
    forall i | 0 <= i < |r| - 2 ensures !(r[i] == 0x2D && r[i + 1] == 0x2D && r[i + 2] == 0x3E) {
      NoArrow(s, i, removeSeparators);
    }
    hide Stays, Dirty;
  }

  lemma BufferBytes(s: seq<bv8>, out: seq<bv8>, removeSeparators: bool)
    requires out == if IsClean(s, removeSeparators) then [] else Clean(s, removeSeparators)
    ensures CleanedTo(s, if out == [] then s else out, removeSeparators)
    ensures out == [] <==> forall i :: 0 <= i < |s| ==> Stays(s, i, removeSeparators)
  {
    CleanBytes(s, removeSeparators);
    CleanIsClean(s, removeSeparators);
    forall k | 0 <= k < |s| ensures Dirty(s, k, removeSeparators) <==> !Stays(s, k, removeSeparators) {
      DirtyBytes(s, k, removeSeparators);
    }
    hide Stays, Dirty;
  }

  /** The source returns an empty string when there is nothing to clean. */
  method CleanBuffer(s: seq<bv8>, removeSeparators: bool) returns (out: seq<bv8>)
    ensures out == if IsClean(s, removeSeparators) then [] else Clean(s, removeSeparators)
    ensures CleanedTo(s, if out == [] then s else out, removeSeparators)
    ensures out == [] <==> forall i :: 0 <= i < |s| ==> Stays(s, i, removeSeparators)
  {
    hide Stays, CleanedTo;
    out := [];
    var i := 0;
    while i < |s|
      invariant 0 <= i <= |s| && (out == [] || |out| == |s|)
      invariant out == [] <==> forall k :: 0 <= k < |s| ==> !Marked(s, k, i, removeSeparators)
      invariant out != [] ==> forall k :: 0 <= k < |s| ==>
                  out[k] == if Marked(s, k, i, removeSeparators) then INVALID else s[k]
    {
      forall k | 0 <= k < |s|
        ensures Marked(s, k, i + 1, removeSeparators) <==>
                  Marked(s, k, i, removeSeparators)
                  || (ArrowAt(s, i) && i <= k <= i + 2) || (k == i && Separator(s[k], removeSeparators))
      {
        MarkedStep(s, k, i, removeSeparators);
      }
      hide Separator, Marked;
      if ArrowAt(s, i) {
        if out == [] {
          out := s;
        }
        out := out[i := INVALID][i + 1 := INVALID][i + 2 := INVALID];
      }
      if Separator(s[i], removeSeparators) {
        if out == [] {
          out := s;
        }
        out := out[i := INVALID];
      }
      i := i + 1;
    }
    forall k | 0 <= k < |s| ensures Marked(s, k, |s|, removeSeparators) <==> Dirty(s, k, removeSeparators) {
    }
    if out != [] {
      assert out == Clean(s, removeSeparators);
    }
    BufferBytes(s, out, removeSeparators);
  }

  /** Byte k has been overwritten by the first i turns of the loop. */
  ghost predicate Marked(s: seq<bv8>, k: int, i: int, removeSeparators: bool)
    requires 0 <= k < |s|
  {
    || (k < i && (ArrowAt(s, k) || Separator(s[k], removeSeparators)))
    || (k - 1 < i && ArrowAt(s, k - 1)) || (k - 2 < i && ArrowAt(s, k - 2))
  }

  lemma MarkedStep(s: seq<bv8>, k: int, i: int, removeSeparators: bool)
    requires 0 <= k < |s| && 0 <= i
    ensures Marked(s, k, i + 1, removeSeparators) <==>
              Marked(s, k, i, removeSeparators)
              || (ArrowAt(s, i) && i <= k <= i + 2) || (k == i && Separator(s[k], removeSeparators))
  {
    hide ArrowAt, Separator;
    if k == i {
    } else if k - 1 == i {
    } else if k - 2 == i {
    }
  }

  /** Cleaning leaves nothing to clean, and leaves clean text alone. */
  lemma CleanIsClean(s: seq<bv8>, removeSeparators: bool)
    ensures IsClean(Clean(s, removeSeparators), removeSeparators)
    ensures IsClean(s, removeSeparators) ==> Clean(s, removeSeparators) == s
  {
    var r := Clean(s, removeSeparators);
    forall i | 0 <= i < |r| ensures !Dirty(r, i, removeSeparators) {
      NoArrow(s, i, removeSeparators);
      NoArrow(s, i - 1, removeSeparators);
      NoArrow(s, i - 2, removeSeparators);
    }
  }

  lemma NoArrow(s: seq<bv8>, i: int, removeSeparators: bool)
    ensures !ArrowAt(Clean(s, removeSeparators), i)
  {}
}
