/** `wrap_message` (rails/dcc-ex/bridge.py:24-29): the normaliser applied to
    every command that arrives over MQTT or TCP. */
module Framing {
  import opened Text

  /** What `wrap_message` keeps of a message: strip whitespace, then every
      leading `<`, then every trailing `>`, then whitespace again. */
  function Content(msg: string): (c: string)
    ensures |c| <= |msg|
    ensures c == [] || (!IsSpace(c[0]) && !IsSpace(c[|c| - 1]))
  {
    Strip(RStrip(LStrip(Strip(msg), IsOpen), IsClose))
  }

  /** `wrap_message`: the content re-wrapped in one bracket pair, or "" when
      nothing is left. */
  function WrapMessage(msg: string): (r: string)
    ensures r == "" || (|r| >= 3 && r[0] == '<' && r[|r| - 1] == '>')
    ensures r != "" ==> r[1..|r| - 1] == Content(msg)
    ensures r != "" ==> !IsSpace(r[1]) && !IsSpace(r[|r| - 2])
    ensures r == "" <==> Content(msg) == ""
  {
    var content := Content(msg);
    if content == [] then "" else "<" + content + ">"
  }

  /** `msg.startswith("<") and msg.endswith(">")`, the serial write guard.
      One character cannot be both, so a lone `<` or `>` never passes. */
  predicate IsBracketed(msg: string): (b: bool)
    ensures b ==> |msg| >= 2
  {
    |msg| >= 1 && msg[0] == '<' && msg[|msg| - 1] == '>'
  }

  /** Every message `wrap_message` lets through passes the serial guard. */
  lemma WrappedIsBracketed(msg: string)
    requires WrapMessage(msg) != ""
    ensures IsBracketed(WrapMessage(msg))
  {
  }

  /** `on_mqtt_message` strips the payload before wrapping it; `wrap_message`
      strips first anyway, so the extra strip changes nothing. */
  lemma WrapIgnoresPadding(msg: string)
    ensures WrapMessage(Strip(msg)) == WrapMessage(msg)
    ensures Strip(msg) == "" ==> WrapMessage(msg) == ""
  {
    StripIdempotent(msg);
    if Strip(msg) == "" {
      assert LStrip("", IsOpen) == "";
      assert RStrip("", IsClose) == "";
      StripUnpadded("");
    }
  }

  /** The bracket-stripped part of `y` is `y` with a run of `<` cut from the
      front and a run of `>` cut from the back. */
  lemma UnbracketSplit(y: string) returns (opens: string, closes: string)
    ensures y == opens + RStrip(LStrip(y, IsOpen), IsClose) + closes
    ensures All(opens, IsOpen) && All(closes, IsClose)
  {
    var a := Lead(y, IsOpen);
    var z := LStrip(y, IsOpen);
    var e := |z| - Trail(z, IsClose);
    opens, closes := y[..a], z[e..];
    Split3(y, a, z, e);
    LeadAll(y, IsOpen);
    TrailAll(z, IsClose);
  }

  lemma AppendSeven(a: string, b: string, c: string, d: string, e: string, f: string, g: string)
    ensures a + (b + (c + d + e) + f) + g == a + b + c + d + e + f + g
  {
  }

  lemma Regroup(a: string, b: string, c: string, d: string, e: string, f: string)
    ensures a + b + c + [] + d + e + f == a + b + (c + d) + e + f
  {
  }

  /** Where the kept content sits in the message: it is preceded by
      whitespace, a run of `<` and whitespace, and followed by whitespace, a
      run of `>` and whitespace. */
  lemma WrapDecompose(msg: string)
    returns (w1: string, opens: string, w2: string, w3: string, closes: string, w4: string)
    ensures msg == w1 + opens + w2 + Content(msg) + w3 + closes + w4
    ensures All(w1, IsSpace) && All(opens, IsOpen) && All(w2, IsSpace)
    ensures All(w3, IsSpace) && All(closes, IsClose) && All(w4, IsSpace)
  {
    var y := Strip(msg);
    w1, w4 := StripSplit(msg);
    opens, closes := UnbracketSplit(y);
    var u := RStrip(LStrip(y, IsOpen), IsClose);
    w2, w3 := StripSplit(u);
    var c := Strip(u);
    assert Content(msg) == c;
    calc {
      msg;
      w1 + y + w4;
      w1 + (opens + u + closes) + w4;
      w1 + (opens + (w2 + c + w3) + closes) + w4;
      { AppendSeven(w1, opens, w2, c, w3, closes, w4); }
      w1 + opens + w2 + c + w3 + closes + w4;
    }
  }

  /** One direction of the emptiness test: a message that wraps to "" is
      whitespace, a run of `<`, whitespace, a run of `>`, whitespace. */
  lemma WrapEmptyShape(msg: string)
    returns (w1: string, opens: string, w2: string, closes: string, w3: string)
    requires WrapMessage(msg) == ""
    ensures msg == w1 + opens + w2 + closes + w3
    ensures All(w1, IsSpace) && All(opens, IsOpen) && All(w2, IsSpace)
    ensures All(closes, IsClose) && All(w3, IsSpace)
  {
    var v2, v3;
    w1, opens, v2, v3, closes, w3 := WrapDecompose(msg);
    w2 := v2 + v3;
    assert Content(msg) == [];
    Regroup(w1, opens, v2, v3, closes, w3);
    AllConcat(v2, v3, IsSpace);
  }

  lemma AllConcat(a: string, b: string, p: char -> bool)
    requires All(a, p) && All(b, p)
    ensures All(a + b, p)
  {
    assert forall x | 0 <= x < |a + b| :: (a + b)[x] == if x < |a| then a[x] else b[x - |a|];
  }

  lemma BlankBracketed(w1: string, opens: string, w2: string, closes: string, w3: string)
    requires All(w1, IsSpace) && All(opens, IsOpen) && All(w2, IsSpace)
    requires All(closes, IsClose) && All(w3, IsSpace)
    requires opens != [] && closes != []
    ensures Content(w1 + opens + w2 + closes + w3) == ""
  {
    BlankOuter(w1, opens, w2, closes, w3);
    BlankUnbracket(opens, w2, closes);
    StripAllSpace(w2);
  }

  /** The outer `strip` stops at the bracket runs. */
  lemma BlankOuter(w1: string, opens: string, w2: string, closes: string, w3: string)
    requires All(w1, IsSpace) && All(w3, IsSpace)
    requires opens != [] && closes != [] && opens[0] == '<' && closes[|closes| - 1] == '>'
    ensures Strip(w1 + opens + w2 + closes + w3) == opens + w2 + closes
  {
    var x := opens + w2 + closes;
    assert w1 + opens + w2 + closes + w3 == w1 + x + w3;
    assert x[0] == opens[0] && x[|x| - 1] == closes[|closes| - 1];
    StripAround(w1, x, w3);
  }

  /** Cutting the bracket runs leaves the blank between them. */
  lemma BlankUnbracket(opens: string, w2: string, closes: string)
    requires All(opens, IsOpen) && All(w2, IsSpace) && All(closes, IsClose) && closes != []
    ensures RStrip(LStrip(opens + w2 + closes, IsOpen), IsClose) == w2
  {
    assert opens + w2 + closes == opens + (w2 + closes);
    LStripPrefix(opens, w2 + closes, IsOpen);
    assert Lead(w2 + closes, IsOpen) == 0 by {
      if w2 != [] {
        assert (w2 + closes)[0] == w2[0];
      } else {
        assert (w2 + closes)[0] == closes[0];
      }
    }
    RStripSuffix(w2, closes, IsClose);
    assert Trail(w2, IsClose) == 0 by {
      if w2 != [] {
        assert IsSpace(w2[|w2| - 1]);
      }
    }
  }

  lemma BlankOpensOnly(w1: string, opens: string, w2: string)
    requires All(w1, IsSpace) && All(opens, IsOpen) && All(w2, IsSpace)
    requires opens != []
    ensures Content(w1 + opens + w2) == ""
  {
    StripAround(w1, opens, w2);
    assert opens == opens + [];
    LStripPrefix(opens, [], IsOpen);
  }

  lemma BlankClosesOnly(w1: string, closes: string, w2: string)
    requires All(w1, IsSpace) && All(closes, IsClose) && All(w2, IsSpace)
    requires closes != []
    ensures Content(w1 + closes + w2) == ""
  {
    StripAround(w1, closes, w2);
    assert Lead(closes, IsOpen) == 0;
    assert closes == [] + closes;
    RStripSuffix([], closes, IsClose);
  }

  /** The other direction: every message of that shape wraps to "". */
  lemma BlankWrapsToEmpty(w1: string, opens: string, w2: string, closes: string, w3: string)
    requires All(w1, IsSpace) && All(opens, IsOpen) && All(w2, IsSpace)
    requires All(closes, IsClose) && All(w3, IsSpace)
    ensures WrapMessage(w1 + opens + w2 + closes + w3) == ""
  {
    var msg := w1 + opens + w2 + closes + w3;
    if opens != [] && closes != [] {
      BlankBracketed(w1, opens, w2, closes, w3);
    } else if opens != [] {
      assert msg == w1 + opens + (w2 + w3);
      AllConcat(w2, w3, IsSpace);
      BlankOpensOnly(w1, opens, w2 + w3);
    } else if closes != [] {
      assert msg == (w1 + w2) + closes + w3;
      AllConcat(w1, w2, IsSpace);
      BlankClosesOnly(w1 + w2, closes, w3);
    } else {
      assert msg == (w1 + w2) + w3;
      AllConcat(w1, w2, IsSpace);
      AllConcat(w1 + w2, w3, IsSpace);
      StripAllSpace(msg);
    }
  }

  /** For a string without outer whitespace, the content is at most what
      is left once the bracket runs are cut. */
  lemma ContentBound(r: string)
    requires r != [] && !IsSpace(r[0]) && !IsSpace(r[|r| - 1])
    ensures |Content(r)| <= |LStrip(r, IsOpen)| - Trail(LStrip(r, IsOpen), IsClose)
  {
    StripUnpadded(r);
  }

  /** A doubled opening bracket: the bracket runs cut at least three. */
  lemma CutsOpenRun(r: string)
    requires |r| >= 3 && r[0] == '<' && r[1] == '<' && r[|r| - 1] == '>'
    ensures Lead(r, IsOpen) + Trail(LStrip(r, IsOpen), IsClose) >= 3
            || LStrip(r, IsOpen) == []
  {
    var p := Lead(r, IsOpen);
    var z := LStrip(r, IsOpen);
    LeadTwo(r, IsOpen);
    if z != [] {
      assert z[|z| - 1] == r[p + |z| - 1] == '>';
    }
  }

  /** A single opening bracket and a doubled closing one: the bracket runs
      cut at least three. */
  lemma CutsCloseRun(r: string)
    requires |r| >= 3 && r[0] == '<' && r[1] != '<' && r[|r| - 2] == '>' && r[|r| - 1] == '>'
    ensures Lead(r, IsOpen) + Trail(LStrip(r, IsOpen), IsClose) >= 3
  {
    assert r[..1] == "<";
    LeadAt(r, IsOpen, 1);
    var z := LStrip(r, IsOpen);
    assert z == r[1..];
    assert z[|z| - 1] == r[|r| - 1] && z[|z| - 2] == r[|r| - 2];
    TrailTwo(z, IsClose);
  }

  /** A wrapped message whose content begins with `<` or ends with `>` loses
      at least one more character when it is wrapped again. */
  lemma RewrapShrinks(r: string)
    requires |r| >= 3 && r[0] == '<' && r[|r| - 1] == '>'
    requires !IsSpace(r[1]) && !IsSpace(r[|r| - 2])
    requires r[1] == '<' || r[|r| - 2] == '>'
    ensures |Content(r)| <= |r| - 3
  {
    ContentBound(r);
    if r[1] == '<' {
      CutsOpenRun(r);
    } else {
      CutsCloseRun(r);
    }
  }


  /** A wrapped message whose content neither begins with `<` nor ends with
      `>` wraps to itself. */
  lemma RewrapKeeps(r: string)
    requires |r| >= 3 && r[0] == '<' && r[|r| - 1] == '>'
    requires !IsSpace(r[1]) && !IsSpace(r[|r| - 2])
    requires r[1] != '<' && r[|r| - 2] != '>'
    ensures WrapMessage(r) == r
  {
    var c := r[1..|r| - 1];
    assert r == "<" + c + ">";
    StripUnpadded(r);
    assert Lead(r, IsOpen) == 1 by {
      assert IsOpen(r[0]) && !IsOpen(r[1]);
    }
    assert LStrip(r, IsOpen) == c + ">";
    assert Trail(c + ">", IsClose) == 1 by {
      assert (c + ">")[|c|] == '>' && (c + ">")[|c| - 1] == c[|c| - 1];
    }
    assert RStrip(c + ">", IsClose) == c;
    StripUnpadded(c);
  }

  /** `wrap_message` is a fixpoint on its own output exactly when that output
      is "" or its content neither begins with `<` nor ends with `>`. */
  lemma WrapFixpoint(x: string)
    ensures var r := WrapMessage(x);
      WrapMessage(r) == r <==> (r == "" || (r[1] != '<' && r[|r| - 2] != '>'))
  {
    var r := WrapMessage(x);
    if r == "" {
      assert Strip("") == "";
    } else if r[1] == '<' || r[|r| - 2] == '>' {
      RewrapShrinks(r);
    } else {
      RewrapKeeps(r);
    }
  }

  /** `Trail` stops at the first character from the back that `drop` rejects. */
  lemma {:induction false} TrailAt(z: string, drop: char -> bool, q: nat)
    requires q < |z| && !drop(z[|z| - q - 1])
    requires forall i | |z| - q <= i < |z| :: drop(z[i])
    ensures Trail(z, drop) == q
    decreases q
  {
    if q > 0 {
      var t := z[..|z| - 1];
      assert drop(z[|z| - 1]);
      assert t[|t| - (q - 1) - 1] == z[|z| - q - 1];
      assert forall i | |t| - (q - 1) <= i < |t| :: t[i] == z[i];
      TrailAt(t, drop, q - 1);
    }
  }

  /** A message that opens with exactly `p` brackets. */
  lemma OpensCut(m: string, p: nat)
    requires p < |m| && !IsOpen(m[p])
    requires forall i | 0 <= i < p :: IsOpen(m[i])
    ensures Lead(m, IsOpen) == p
  {
    assert forall i | 0 <= i < p :: m[..p][i] == m[i];
    LeadAt(m, IsOpen, p);
  }

  /** The content of a message without outer whitespace that opens with
      `p` brackets and, after those, closes with `q`: the middle, stripped. */
  lemma ContentCut(m: string, p: nat, q: nat)
    requires m != [] && !IsSpace(m[0]) && !IsSpace(m[|m| - 1])
    requires Lead(m, IsOpen) == p && Trail(m[p..], IsClose) == q
    ensures p + q <= |m|
    ensures Content(m) == Strip(m[p..|m| - q])
  {
    StripUnpadded(m);
    RStripCut(m, p, q);
    ContentOf(m, m, m[p..], m[p..|m| - q]);
  }

  /** `Content` step by step. */
  lemma ContentOf(m: string, s: string, z: string, y: string)
    requires s == Strip(m) && z == LStrip(s, IsOpen) && y == RStrip(z, IsClose)
    ensures Content(m) == Strip(y)
  {
  }

  lemma RStripCut(m: string, p: nat, q: nat)
    requires p <= |m| && Trail(m[p..], IsClose) == q
    ensures p + q <= |m| && RStrip(m[p..], IsClose) == m[p..|m| - q]
  {
    SliceOfSlice(m, p, q);
  }

  lemma SliceOfSlice(m: string, p: nat, q: nat)
    requires p + q <= |m|
    ensures m[p..][..|m| - p - q] == m[p..|m| - q]
  {
  }

  /** The same, when the middle has no outer whitespace either. */
  lemma ContentCutPlain(m: string, p: nat, q: nat)
    requires m != [] && !IsSpace(m[0]) && !IsSpace(m[|m| - 1])
    requires Lead(m, IsOpen) == p && Trail(m[p..], IsClose) == q
    requires p + q < |m| && !IsSpace(m[p]) && !IsSpace(m[|m| - q - 1])
    ensures Content(m) == m[p..|m| - q]
  {
    ContentCut(m, p, q);
    MiddleUnpadded(m, p, q);
  }

  lemma MiddleUnpadded(m: string, p: nat, q: nat)
    requires p + q < |m| && !IsSpace(m[p]) && !IsSpace(m[|m| - q - 1])
    ensures Strip(m[p..|m| - q]) == m[p..|m| - q]
  {
    var c := m[p..|m| - q];
    assert c[0] == m[p] && c[|c| - 1] == m[|m| - q - 1];
    StripUnpadded(c);
  }

  lemma ClosesCut(m: string, p: nat, q: nat)
    requires p + q < |m|
    requires forall i | |m| - q <= i < |m| :: IsClose(m[i])
    requires !IsClose(m[|m| - q - 1])
    ensures Trail(m[p..], IsClose) == q
  {
    var z := m[p..];
    assert z[|z| - q - 1] == m[|m| - q - 1];
    assert forall i | |z| - q <= i < |z| :: z[i] == m[p + i];
    TrailAt(z, IsClose, q);
  }

  /** `wrap_message` puts the content between one bracket pair. */
  lemma WrapsTo(m: string, r: string)
    requires |r| >= 3 && r[0] == '<' && r[|r| - 1] == '>' && Content(m) == r[1..|r| - 1]
    ensures WrapMessage(m) == r
  {
    var w := WrapMessage(m);
    SameEnds(w, r);
  }

  lemma SameEnds(w: string, r: string)
    requires |w| >= 2 && |r| >= 2 && w[0] == r[0] && w[|w| - 1] == r[|r| - 1]
    requires w[1..|w| - 1] == r[1..|r| - 1]
    ensures w == r
  {
    assert |w| == |r|;
    forall i | 0 <= i < |w|
      ensures w[i] == r[i]
    {
      if 0 < i < |w| - 1 {
        assert w[i] == w[1..|w| - 1][i - 1];
      }
    }
  }

  // The worked cases below name their input through a parameter pinned by
  // `requires` (character by character, or equal to a literal) rather than
  // writing the literal in the `ensures`: with the literal in the goal the
  // verifier unfolds the string functions on it eagerly and runs out of
  // resource. Each lemma is still a statement about that one input.

  /** `"<< <s>>"`: two opening brackets, a blank, `<s`, two closing brackets. */
  lemma WrapNested(m: string)
    requires |m| == 7 && m[0] == '<' && m[1] == '<' && m[2] == ' ' && m[3] == '<'
    requires m[4] == 's' && m[5] == '>' && m[6] == '>'
    ensures WrapMessage(m) == "<<s>"
  {
    NestedContent(m);
    var r := "<<s>";
    assert r[1..3] == m[3..5];
    WrapsTo(m, r);
  }

  lemma NestedContent(m: string)
    requires |m| == 7 && m[0] == '<' && m[1] == '<' && m[2] == ' ' && m[3] == '<'
    requires m[4] == 's' && m[5] == '>' && m[6] == '>'
    ensures Content(m) == m[3..5]
  {
    OpensCut(m, 2);
    ClosesCut(m, 2, 2);
    ContentCut(m, 2, 2);
    LeadingBlank(m[2..5]);
    assert m[2..5][1..] == m[3..5];
  }

  /** One leading blank before two non-blank characters is all `strip` cuts. */
  lemma LeadingBlank(c: string)
    requires |c| == 3 && IsSpace(c[0]) && !IsSpace(c[1]) && !IsSpace(c[2])
    ensures Strip(c) == c[1..]
  {
    LeadAt(c, IsSpace, 1);
    StripUnpadded(c[1..]);
  }

  /** The fixpoint condition is not always met: wrapping is not idempotent. */
  lemma WrapNotIdempotent(m: string)
    requires |m| == 7 && m[0] == '<' && m[1] == '<' && m[2] == ' ' && m[3] == '<'
    requires m[4] == 's' && m[5] == '>' && m[6] == '>'
    ensures WrapMessage(m) == "<<s>"
    ensures WrapMessage(WrapMessage(m)) == "<s>"
  {
    WrapNested(m);
    RewrapExample("<<s>");
  }

  /** `"<<s>"` wraps to `"<s>"`. */
  lemma RewrapExample(w: string)
    requires |w| == 4 && w[0] == '<' && w[1] == '<' && w[2] == 's' && w[3] == '>'
    ensures WrapMessage(w) == "<s>"
  {
    OpensCut(w, 2);
    ClosesCut(w, 2, 1);
    ContentCutPlain(w, 2, 1);
    var r := "<s>";
    assert r[1..2] == w[2..3];
    WrapsTo(w, r);
  }

  /** Worked case: a bare command is wrapped. */
  lemma WrapBareCommand(m: string)
    requires |m| == 3 && m[0] == 'J' && m[1] == ' ' && m[2] == 'Q'
    ensures WrapMessage(m) == "<J Q>"
  {
    OpensCut(m, 0);
    ClosesCut(m, 0, 0);
    ContentCutPlain(m, 0, 0);
    var r := "<J Q>";
    assert r[1..4] == m[0..3];
    WrapsTo(m, r);
  }

  /** Worked case: a `<` inside the command survives wrapping, so the
      result is not free of inner brackets as the docstring says. */
  lemma WrapKeepsInnerBracket(m: string)
    requires |m| == 3 && m[0] == 'a' && m[1] == '<' && m[2] == 'b'
    ensures WrapMessage(m) == "<a<b>"
    ensures '<' in WrapMessage(m)[1..|WrapMessage(m)| - 1]
  {
    OpensCut(m, 0);
    ClosesCut(m, 0, 0);
    ContentCutPlain(m, 0, 0);
    var r := "<a<b>";
    assert r[1..4] == m[0..3];
    WrapsTo(m, r);
    assert r[1..4][1] == '<';
  }

  /** Worked case: an empty bracket pair is dropped. */
  lemma WrapEmptyBrackets(m: string)
    requires |m| == 2 && m[0] == '<' && m[1] == '>'
    ensures WrapMessage(m) == ""
  {
    StripUnpadded(m);
    OpensCut(m, 1);
    var z := m[1..];
    assert Trail(z, IsClose) == 1 by {
      assert z[..0] == [];
    }
    assert RStrip(z, IsClose) == [];
    StripUnpadded([]);
  }
}
