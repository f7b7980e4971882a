/** The bracket-frame scanner that `handle_serial` and `handle_tcp_client`
    run over their accumulation buffers (rails/dcc-ex/bridge.py:133-141 and
    177-188), and the line fallback of the TCP handler (191-197). */
module Extraction {
  import opened Text

  /** A slice cut by the scanner: from a `<` through the first `>` after it. */
  predicate IsFrameSlice(f: string) {
    |f| >= 2 && f[0] == '<' && f[|f| - 1] == '>' && '>' !in f[..|f| - 1]
  }

  /** The scanning loop's exit condition: the buffer lacks `<` or lacks `>`. */
  predicate Settled(b: string) {
    !('<' in b && '>' in b)
  }

  datatype Scanned = Scanned(frames: seq<string>, rest: string)

  /** What one run of `while "<" in buffer and ">" in buffer` does to a buffer:
      the slices it emits, in order, and the buffer it leaves behind. */
  function Scan(b: string): (r: Scanned)
    ensures |r.rest| <= |b|
    decreases |b|
  {
    var start, end := Find(b, '<'), Find(b, '>');
    if start < 0 || end < 0 then
      Scanned([], b)
    else if end > start then
      var r := Scan(b[end + 1..]);
      Scanned([b[start..end + 1]] + r.frames, r.rest)
    else
      Scan(b[start..])
  }

  lemma CutIsFrame(b: string, start: int, end: int)
    requires 0 <= start < end < |b| && b[start] == '<' && b[end] == '>'
    requires '>' !in b[..end]
    ensures IsFrameSlice(b[start..end + 1])
  {
    var f := b[start..end + 1];
    assert f[..|f| - 1] == b[..end][start..];
  }

  /** One turn of the scanning loop when both brackets are present. */
  lemma ScanStep(b: string) returns (start: nat, end: nat)
    requires !Settled(b)
    ensures start == Find(b, '<') && end == Find(b, '>') && start != end
    ensures '<' !in b[..start] && '>' !in b[..end]
    ensures end > start ==> Scan(b) == Scanned([b[start..end + 1]] + Scan(b[end + 1..]).frames, Scan(b[end + 1..]).rest)
    ensures end < start ==> Scan(b) == Scan(b[start..])
  {
    FindFirst(b, '<');
    FindFirst(b, '>');
    start, end := Find(b, '<'), Find(b, '>');
  }

  /** The loop does not run on a buffer lacking `<` or `>`. */
  lemma ScanSettled(b: string)
    requires Settled(b)
    ensures Scan(b) == Scanned([], b)
  {
    FindFirst(b, '<');
    FindFirst(b, '>');
  }

  /** The loop stops only on a buffer lacking `<` or `>`, every pass
      shortens the buffer, and every emitted slice is a frame: a `<`, then
      no `>`, then a `>`. */
  lemma {:induction false} ScanShape(b: string)
    ensures Settled(Scan(b).rest)
    ensures !Settled(b) ==> |Scan(b).rest| < |b|
    ensures forall f | f in Scan(b).frames :: IsFrameSlice(f)
    decreases |b|
  {
    if Settled(b) {
      ScanSettled(b);
    } else {
      var start, end := ScanStep(b);
      if end > start {
        ScanShape(b[end + 1..]);
        CutIsFrame(b, start, end);
      } else {
        ScanShape(b[start..]);
      }
    }
  }

  /** `gaps[0] + frames[0] + gaps[1] + ... + frames[n-1] + gaps[n]`. */
  function Weave(gaps: seq<string>, frames: seq<string>): string
    requires |gaps| == |frames| + 1
    decreases |frames|
  {
    if frames == [] then gaps[0] else gaps[0] + frames[0] + Weave(gaps[1..], frames[1..])
  }

  lemma WeavePrepend(p: string, gaps: seq<string>, frames: seq<string>)
    requires |gaps| == |frames| + 1
    ensures Weave([p + gaps[0]] + gaps[1..], frames) == p + Weave(gaps, frames)
  {
    var gs := [p + gaps[0]] + gaps[1..];
    assert gs[1..] == gaps[1..];
    if frames != [] {
      assert p + gaps[0] + frames[0] + Weave(gaps[1..], frames[1..])
          == p + (gaps[0] + frames[0] + Weave(gaps[1..], frames[1..]));
    }
  }

  lemma WeaveCons(p: string, f: string, gaps: seq<string>, frames: seq<string>)
    requires |gaps| == |frames| + 1
    ensures Weave([p] + gaps, [f] + frames) == p + f + Weave(gaps, frames)
  {
    assert ([p] + gaps)[1..] == gaps;
    assert ([f] + frames)[1..] == frames;
  }

  lemma Cut3(b: string, i: nat, j: nat)
    requires i <= j <= |b|
    ensures b == b[..i] + b[i..j] + b[j..]
  {
  }

  lemma Assoc(p: string, w: string, r: string)
    ensures p + w + r == p + (w + r)
  {
  }

  lemma Reassoc(p: string, f: string, w: string, r: string)
    ensures p + f + w + r == p + f + (w + r)
  {
  }

  /** Nothing is lost or reordered: the buffer is the emitted frames in
      order, separated by discarded gaps that hold no `<`, followed by what
      stays buffered. */
  lemma {:induction false} ScanDecomposes(b: string) returns (gaps: seq<string>)
    ensures |gaps| == |Scan(b).frames| + 1
    ensures forall g | g in gaps :: '<' !in g
    ensures b == Weave(gaps, Scan(b).frames) + Scan(b).rest
    decreases |b|
  {
    if Settled(b) {
      gaps := [""];
      ScanSettled(b);
      assert b == "" + b;
    } else {
      var start, end := ScanStep(b);
      if end > start {
        var t := b[end + 1..];
        var gs := ScanDecomposes(t);
        gaps := [b[..start]] + gs;
        WeaveFrame(b, start, end, gs, Scan(t).frames, Scan(t).rest);
      } else {
        var t := b[start..];
        var gs := ScanDecomposes(t);
        gaps := [b[..start] + gs[0]] + gs[1..];
        WeaveDiscard(b, start, gs, Scan(t).frames, Scan(t).rest);
      }
    }
  }

  lemma WeaveFrame(b: string, start: nat, end: nat, gs: seq<string>, fs: seq<string>, rest: string)
    requires start < end < |b| && '<' !in b[..start]
    requires |gs| == |fs| + 1 && (forall g | g in gs :: '<' !in g)
    requires b[end + 1..] == Weave(gs, fs) + rest
    ensures forall g | g in [b[..start]] + gs :: '<' !in g
    ensures b == Weave([b[..start]] + gs, [b[start..end + 1]] + fs) + rest
  {
    var f := b[start..end + 1];
    WeaveCons(b[..start], f, gs, fs);
    Reassoc(b[..start], f, Weave(gs, fs), rest);
    Cut3(b, start, end + 1);
  }

  lemma WeaveDiscard(b: string, start: nat, gs: seq<string>, fs: seq<string>, rest: string)
    requires start <= |b| && '<' !in b[..start]
    requires |gs| == |fs| + 1 && (forall g | g in gs :: '<' !in g)
    requires b[start..] == Weave(gs, fs) + rest
    ensures forall g | g in [b[..start] + gs[0]] + gs[1..] :: '<' !in g
    ensures b == Weave([b[..start] + gs[0]] + gs[1..], fs) + rest
  {
    var p, w := b[..start], Weave(gs, fs);
    var w' := Weave([p + gs[0]] + gs[1..], fs);
    WeavePrepend(p, gs, fs);
    assert w' == p + w;
    Split2(b, start);
    assert b == p + (w + rest);
    Assoc(p, w, rest);
    assert b == w' + rest;
    MergeGaps(b[..start], gs);
  }

  lemma Split2(b: string, i: nat)
    requires i <= |b|
    ensures b == b[..i] + b[i..]
  {
  }

  lemma MergeGaps(p: string, gs: seq<string>)
    requires gs != [] && '<' !in p && (forall g | g in gs :: '<' !in g)
    ensures forall g | g in [p + gs[0]] + gs[1..] :: '<' !in g
  {
    assert '<' !in gs[0] by {
      assert gs[0] in gs;
    }
    forall g | g in [p + gs[0]] + gs[1..]
      ensures '<' !in g
    {
      if g != p + gs[0] {
        assert g in gs[1..];
        assert g in gs;
      }
    }
  }

  /** `s.find(x)` does not look past the first `x`: appending text after it
      changes nothing. */
  lemma {:induction false} FindAppend(a: string, c: string, x: char)
    requires x in a
    ensures Find(a + c, x) == Find(a, x)
    decreases |a|
  {
    assert (a + c)[0] == a[0];
    if a[0] != x {
      assert x in a[1..] by {
        assert a == [a[0]] + a[1..];
      }
      assert (a + c)[1..] == a[1..] + c;
      FindAppend(a[1..], c, x);
      FindFirst(a[1..], x);
    }
  }

  /** Chunk boundaries do not matter: scanning after every read emits the
      same frames, in the same order, and keeps the same remainder as
      scanning the whole stream at once. A frame split across reads is
      emitted once, when its closing `>` arrives. */
  lemma {:induction false} ScanAppend(a: string, c: string)
    ensures Scan(a + c) == Scanned(Scan(a).frames + Scan(Scan(a).rest + c).frames, Scan(Scan(a).rest + c).rest)
    decreases |a|
  {
    if Settled(a) {
      ScanSettled(a);
      assert [] + Scan(a + c).frames == Scan(a + c).frames;
    } else {
      var start, end := ScanStep(a);
      FindAppend(a, c, '<');
      FindAppend(a, c, '>');
      assert (a + c)[start] == '<' && (a + c)[end] == '>';
      if end > start {
        ScanAppend(a[end + 1..], c);
        AppendAfterFrame(a, c, start, end);
      } else {
        ScanAppend(a[start..], c);
        AppendAfterDiscard(a, c, start, end);
      }
    }
  }

  lemma AppendAfterFrame(a: string, c: string, start: nat, end: nat)
    requires start < end < |a| && Find(a, '<') == start && Find(a, '>') == end
    requires Find(a + c, '<') == start && Find(a + c, '>') == end
    requires var t := a[end + 1..];
      Scan(t + c) == Scanned(Scan(t).frames + Scan(Scan(t).rest + c).frames, Scan(Scan(t).rest + c).rest)
    ensures Scan(a + c) == Scanned(Scan(a).frames + Scan(Scan(a).rest + c).frames, Scan(Scan(a).rest + c).rest)
  {
    var t := a[end + 1..];
    FrameStepAppend(a, c, start, end);
    ComposeFrame(a[start..end + 1], Scan(a), Scan(a + c), Scan(t), Scan(t + c), Scan(Scan(t).rest + c));
  }

  /** Bookkeeping for `AppendAfterFrame`, over the scan results alone. */
  lemma ComposeFrame(f: string, sa: Scanned, sac: Scanned, st: Scanned, stc: Scanned, su: Scanned)
    requires sa == Scanned([f] + st.frames, st.rest)
    requires sac == Scanned([f] + stc.frames, stc.rest)
    requires stc == Scanned(st.frames + su.frames, su.rest)
    ensures sac == Scanned(sa.frames + su.frames, su.rest)
  {
    assert [f] + (st.frames + su.frames) == [f] + st.frames + su.frames;
  }

  lemma FrameStepAppend(a: string, c: string, start: nat, end: nat)
    requires start < end < |a| && Find(a + c, '<') == start && Find(a + c, '>') == end
    ensures Scan(a + c) == Scanned([a[start..end + 1]] + Scan(a[end + 1..] + c).frames, Scan(a[end + 1..] + c).rest)
  {
    var ac := a + c;
    assert ac[end + 1..] == a[end + 1..] + c by {
      DropAppend(a, c, end + 1);
    }
    assert ac[start..end + 1] == a[start..end + 1] by {
      SliceAppend(a, c, start, end + 1);
    }
  }

  lemma DropAppend(a: string, c: string, i: nat)
    requires i <= |a|
    ensures (a + c)[i..] == a[i..] + c
  {
  }

  lemma SliceAppend(a: string, c: string, i: nat, j: nat)
    requires i <= j <= |a|
    ensures (a + c)[i..j] == a[i..j]
  {
  }

  lemma AppendAfterDiscard(a: string, c: string, start: nat, end: nat)
    requires end < start < |a| && Find(a, '<') == start && Find(a, '>') == end
    requires Find(a + c, '<') == start && Find(a + c, '>') == end
    requires var t := a[start..];
      Scan(t + c) == Scanned(Scan(t).frames + Scan(Scan(t).rest + c).frames, Scan(Scan(t).rest + c).rest)
    ensures Scan(a + c) == Scanned(Scan(a).frames + Scan(Scan(a).rest + c).frames, Scan(Scan(a).rest + c).rest)
  {
    var _, _ := ScanStep(a);
    var _, _ := ScanStep(a + c);
    assert (a + c)[start..] == a[start..] + c;
  }

  /** "<s" in one read and ">" in the next yield exactly one "<s>". */
  lemma SplitFrameOnce()
    ensures Scan("<s").frames == [] && Scan("<s").rest == "<s"
    ensures Scan(Scan("<s").rest + ">").frames == ["<s>"]
    ensures Scan("<s" + ">").frames == ["<s>"]
  {
    assert '>' !in "<s";
    var b := "<s>";
    assert "<s" + ">" == b;
    assert Find(b, '<') == 0;
    assert Find(b, '>') == 2 by {
      assert b[1..] == "s>" && b[1..][1..] == ">";
    }
    assert b[3..] == "";
    assert b[0..3] == b;
  }

  // The worked cases below name their input through a parameter pinned by
  // `requires` (character by character, or equal to a literal) rather than
  // writing the literal in the `ensures`: with the literal in the goal the
  // verifier unfolds the string functions on it eagerly and runs out of
  // resource. Each lemma is still a statement about that one input.

  /** Leading noise is discarded and frames come out in order. */
  lemma GarbageThenTwoFrames(b: string)
    requires b == "garbage<JOIN><PING>"
    ensures Scan(b) == Scanned(["<JOIN>", "<PING>"], "")
  {
    var t := "<PING>";
    JoinStep(b, t);
    SecondHalf(t);
    assert ["<JOIN>"] + ["<PING>"] == ["<JOIN>", "<PING>"];
  }

  lemma JoinStep(b: string, t: string)
    requires b == "garbage<JOIN><PING>" && t == "<PING>"
    ensures Scan(b) == Scanned(["<JOIN>"] + Scan(t).frames, Scan(t).rest)
  {
    FirstFrame(b);
    assert b[7] == '<' && b[12] == '>';
    var _, _ := ScanStep(b);
    JoinSlices(b);
  }

  lemma JoinSlices(b: string)
    requires b == "garbage<JOIN><PING>"
    ensures b[7..13] == "<JOIN>" && b[13..] == "<PING>"
  {
  }

  lemma FirstFrame(b: string)
    requires b == "garbage<JOIN><PING>"
    ensures Find(b, '<') == 7 && Find(b, '>') == 12
  {
    FirstOpen(b);
    FirstClose(b);
  }

  lemma FirstOpen(b: string)
    requires b == "garbage<JOIN><PING>"
    ensures Find(b, '<') == 7
  {
    assert b[..7] == "garbage" && '<' !in b[..7];
    FindAt(b, '<', 7);
  }

  lemma FirstClose(b: string)
    requires b == "garbage<JOIN><PING>"
    ensures Find(b, '>') == 12
  {
    assert b[..12] == "garbage<JOIN" && '>' !in b[..12];
    FindAt(b, '>', 12);
  }

  lemma SecondHalf(b: string)
    requires b == "<PING>"
    ensures Scan(b) == Scanned(["<PING>"], "")
  {
    assert Find(b, '<') == 0;
    assert b[..5] == "<PING" && '>' !in b[..5];
    FindAt(b, '>', 5);
    var _, _ := ScanStep(b);
    assert b[0..6] == b && b[6..] == "";
    ScanSettled("");
  }

  /** `find` returns the first position holding the character. */
  lemma {:induction false} FindAt(s: string, x: char, k: nat)
    requires k < |s| && s[k] == x && x !in s[..k]
    ensures Find(s, x) == k
    decreases k
  {
    if k > 0 {
      assert s[0] == s[..k][0];
      assert s[1..][..k - 1] == s[1..k];
      assert s[1..k] == s[..k][1..];
      FindAt(s[1..], x, k - 1);
    }
  }

  datatype LineCut = LineCut(line: Option<string>, rest: string)

  /** The line fallback (`if "\n" in buffer and "<" not in buffer`): the
      stripped first line, and the buffer with `len(line) + 1` characters
      dropped from its front. */
  function CutLine(b: string): (r: LineCut)
    ensures r.line.None? <==> !('\n' in b && '<' !in b)
    ensures r.line.None? ==> r.rest == b
    ensures r.line.Some? ==> |r.rest| < |b| && r.rest == b[|b| - |r.rest|..]
    ensures r.line.Some? ==> Strip(r.line.value) == r.line.value
    ensures r.line.Some? ==> '\n' !in r.line.value && '<' !in r.line.value
  {
    if '\n' in b && '<' !in b then
      FindFirst(b, '\n');
      var first := b[..Find(b, '\n')];
      var line := Strip(first);
      StripKeeps(first);
      StripIdempotent(first);
      LineCut(Some(line), b[|line| + 1..])
    else
      LineCut(None, b)
  }

  /** The fallback consumes exactly the first line and its newline if and
      only if that line has no surrounding whitespace. */
  lemma CutLineConsumesLine(b: string, k: nat)
    requires '<' !in b && k < |b| && b[k] == '\n' && '\n' !in b[..k]
    ensures CutLine(b).line == Some(Strip(b[..k]))
    ensures CutLine(b).rest == b[k + 1..] <==> Strip(b[..k]) == b[..k]
  {
    FindAt(b, '\n', k);
    var line := Strip(b[..k]);
    if line != b[..k] {
      assert |line| < k by {
        var pre, post := StripSplit(b[..k]);
        assert |pre| + |post| > 0;
      }
      assert |CutLine(b).rest| != |b[k + 1..]|;
    }
  }

  /** A padded line leaves part of itself behind: "  ab\n" relays "ab" and
      keeps "b\n" buffered. */
  lemma PaddedLineResidue()
    ensures CutLine("  ab\n") == LineCut(Some("ab"), "b\n")
  {
    var b := "  ab\n";
    assert b[..4] == "  ab" && '\n' !in b[..4];
    FindAt(b, '\n', 4);
    StripPaddedAb();
    CutLineOf(b, 4, "ab");
    assert b[3..] == "b\n";
  }

  /** What the fallback does once the first newline and the stripped line
      are known. */
  lemma CutLineOf(b: string, k: nat, line: string)
    requires '<' !in b && k < |b| && b[k] == '\n' && Find(b, '\n') == k && Strip(b[..k]) == line
    ensures CutLine(b) == LineCut(Some(line), b[|line| + 1..])
  {
  }

  lemma StripPaddedAb()
    ensures Strip("  ab") == "ab"
  {
    var s := "  ab";
    assert s == "  " + "ab";
    StripAround("  ", "ab", "");
    assert "  " + "ab" + "" == s;
  }

  /** ... and the next read turns that residue into the command "b". */
  lemma ResidueRelaysAgain()
    ensures CutLine("b\n" + "x").line == Some("b")
  {
    var c := "b\nx";
    assert "b\n" + "x" == c;
    assert c[..1] == "b" && '\n' !in c[..1];
    FindAt(c, '\n', 1);
    assert '<' !in c;
    StripUnpadded("b");
  }

  /** The fallback runs once per read: with two lines buffered, only the
      first is relayed and the second stays buffered for the next read. */
  lemma FallbackOncePerRead(b: string)
    requires |b| == 4 && b[0] == 'a' && b[1] == '\n' && b[2] == 'b' && b[3] == '\n'
    ensures CutLine(b) == LineCut(Some("a"), b[2..])
    ensures '\n' in CutLine(b).rest
  {
    assert b[..1] == "a" && '\n' !in b[..1];
    FindAt(b, '\n', 1);
    StripUnpadded("a");
    CutLineOf(b, 1, "a");
    assert b[2..][1] == '\n';
  }

  /** The accumulation buffer a serial link or a TCP client reads into. */
  class FrameBuffer {
    var pending: string

    constructor ()
      ensures pending == ""
    {
      pending := "";
    }

    /** `buffer += data.decode(...)` */
    method Feed(data: string)
      modifies this
      ensures pending == old(pending) + data
    {
      pending := pending + data;
    }

    /** The scanning loop: emits the slices it cuts, in order, and leaves the
        buffer settled. */
    method ExtractFrames() returns (frames: seq<string>)
      modifies this
      ensures frames == Scan(old(pending)).frames
      ensures pending == Scan(old(pending)).rest
    {
      frames := [];
      while '<' in pending && '>' in pending
        invariant Scan(old(pending)).frames == frames + Scan(pending).frames
        invariant Scan(old(pending)).rest == Scan(pending).rest
        decreases |pending|
      {
        var start, end := Find(pending, '<'), Find(pending, '>');
        ghost var _, _ := ScanStep(pending);
        if end > start {
          frames := frames + [pending[start..end + 1]];
          pending := pending[end + 1..];
        } else {
          pending := pending[start..];
        }
      }
    }

    /** The TCP handler's line fallback, run once after the scanning loop. */
    method TakeLine() returns (line: Option<string>)
      modifies this
      ensures line == CutLine(old(pending)).line
      ensures pending == CutLine(old(pending)).rest
    {
      var cut := CutLine(pending);
      line, pending := cut.line, cut.rest;
    }
  }
}
