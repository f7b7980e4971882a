/** Python string primitives the bridge relies on: `str.isspace`, `strip`,
    `lstrip(ch)`, `rstrip(ch)` and `find`, over strings as `seq<char>`. */
module Text {

  datatype Option<+T> = None | Some(value: T)

  /** Python's `str.isspace` for one character: ASCII blanks, the ASCII
      separators 0x1C-0x1F and the Unicode space characters. */
  predicate IsSpace(c: char) {
    c == ' ' || ('\t' <= c <= '\r') || ('\U{1C}' <= c <= '\U{1F}')
    || c == '\U{85}' || c == '\U{A0}' || c == '\U{1680}'
    || ('\U{2000}' <= c <= '\U{200A}') || c == '\U{2028}' || c == '\U{2029}'
    || c == '\U{202F}' || c == '\U{205F}' || c == '\U{3000}'
  }

  predicate IsOpen(c: char) { c == '<' }

  predicate IsClose(c: char) { c == '>' }

  predicate All(s: string, p: char -> bool) {
    forall i | 0 <= i < |s| :: p(s[i])
  }

  /** How many leading characters satisfy `drop`. */
  function Lead(s: string, drop: char -> bool): (n: nat)
    ensures n <= |s|
    ensures n == |s| || !drop(s[n])
  {
    if s != [] && drop(s[0]) then Lead(s[1..], drop) + 1 else 0
  }

  /** Every character `Lead` counts satisfies `drop`. */
  lemma {:induction false} LeadAll(s: string, drop: char -> bool)
    ensures All(s[..Lead(s, drop)], drop)
    decreases |s|
  {
    if s != [] && drop(s[0]) {
      var k := Lead(s[1..], drop);
      LeadAll(s[1..], drop);
      assert s[..k + 1] == [s[0]] + s[1..][..k];
    }
  }

  /** How many trailing characters satisfy `drop`. */
  function Trail(s: string, drop: char -> bool): (n: nat)
    ensures n <= |s|
    ensures n == |s| || !drop(s[|s| - n - 1])
  {
    if s != [] && drop(s[|s| - 1]) then Trail(s[..|s| - 1], drop) + 1 else 0
  }

  /** Every character `Trail` counts satisfies `drop`. */
  lemma {:induction false} TrailAll(s: string, drop: char -> bool)
    ensures All(s[|s| - Trail(s, drop)..], drop)
    decreases |s|
  {
    if s != [] && drop(s[|s| - 1]) {
      var k := Trail(s[..|s| - 1], drop);
      TrailAll(s[..|s| - 1], drop);
      TrailGrow(s, drop, k);
    }
  }

  lemma TrailGrow(s: string, drop: char -> bool, k: nat)
    requires s != [] && k < |s| && drop(s[|s| - 1]) && All(s[..|s| - 1][|s| - 1 - k..], drop)
    ensures All(s[|s| - (k + 1)..], drop)
  {
    var t := s[|s| - (k + 1)..];
    forall i | 0 <= i < |t|
      ensures drop(t[i])
    {
      if i < k {
        assert t[i] == s[..|s| - 1][|s| - 1 - k..][i];
      } else {
        assert t[i] == s[|s| - 1];
      }
    }
  }

  /** `s.lstrip(...)`: drops the longest prefix whose characters satisfy `drop`. */
  function LStrip(s: string, drop: char -> bool): string {
    s[Lead(s, drop)..]
  }

  /** `s.rstrip(...)`: drops the longest suffix whose characters satisfy `drop`. */
  function RStrip(s: string, drop: char -> bool): string {
    s[..|s| - Trail(s, drop)]
  }

  /** `lstrip` cuts the longest droppable prefix: everything cut satisfies
      `drop`, and the first character kept does not. */
  lemma LStripCut(s: string, drop: char -> bool)
    ensures |LStrip(s, drop)| <= |s|
    ensures s == s[..|s| - |LStrip(s, drop)|] + LStrip(s, drop)
    ensures All(s[..|s| - |LStrip(s, drop)|], drop)
    ensures LStrip(s, drop) == [] || !drop(LStrip(s, drop)[0])
  {
    LeadAll(s, drop);
    assert s == s[..Lead(s, drop)] + s[Lead(s, drop)..];
  }

  /** `rstrip` cuts the longest droppable suffix: everything cut satisfies
      `drop`, and the last character kept does not. */
  lemma RStripCut(s: string, drop: char -> bool)
    ensures |RStrip(s, drop)| <= |s|
    ensures s == RStrip(s, drop) + s[|RStrip(s, drop)|..]
    ensures All(s[|RStrip(s, drop)|..], drop)
    ensures RStrip(s, drop) == [] || !drop(RStrip(s, drop)[|RStrip(s, drop)| - 1])
  {
    TrailAll(s, drop);
    assert s == s[..|s| - Trail(s, drop)] + s[|s| - Trail(s, drop)..];
  }

  /** `s.strip()`: removes leading and trailing whitespace. */
  function Strip(s: string): (r: string)
    ensures |r| <= |s|
    ensures r == [] || (!IsSpace(r[0]) && !IsSpace(r[|r| - 1]))
  {
    RStrip(LStrip(s, IsSpace), IsSpace)
  }

  /** `s.find(c)`: the index of the first `c`, or -1 when there is none. */
  function Find(s: string, c: char): (r: int)
    ensures -1 <= r < |s|
    ensures 0 <= r ==> s[r] == c
    decreases |s|
  {
    if s == [] then -1
    else if s[0] == c then 0
    else
      var k := Find(s[1..], c);
      if k < 0 then -1 else k + 1
  }

  /** `find` reports -1 exactly when the character is absent, and otherwise
      its first occurrence. */
  lemma {:induction false} FindFirst(s: string, c: char)
    ensures Find(s, c) == -1 <==> c !in s
    ensures 0 <= Find(s, c) ==> c !in s[..Find(s, c)]
    decreases |s|
  {
    if s != [] && s[0] != c {
      FindFirst(s[1..], c);
      var k := Find(s[1..], c);
      if k >= 0 {
        assert s[..k + 1] == [s[0]] + s[1..][..k];
      } else {
        assert s == [s[0]] + s[1..];
      }
    }
  }

  /** `Strip(s)` is `s` with whitespace cut from both ends. */
  lemma StripSplit(s: string) returns (pre: string, post: string)
    ensures s == pre + Strip(s) + post
    ensures All(pre, IsSpace) && All(post, IsSpace)
  {
    var i := Lead(s, IsSpace);
    var l := LStrip(s, IsSpace);
    var n := |l| - Trail(l, IsSpace);
    pre, post := s[..i], l[n..];
    Split3(s, i, l, n);
    LeadAll(s, IsSpace);
    TrailAll(l, IsSpace);
  }

  lemma Split3(s: string, i: nat, l: string, n: nat)
    requires i <= |s| && l == s[i..] && n <= |l|
    ensures s == s[..i] + l[..n] + l[n..]
  {
    assert s == s[..i] + s[i..];
    assert l == l[..n] + l[n..];
  }

  /** A string without outer whitespace is its own strip. */
  lemma StripUnpadded(s: string)
    requires s == [] || (!IsSpace(s[0]) && !IsSpace(s[|s| - 1]))
    ensures Strip(s) == s
  {
  }

  lemma StripIdempotent(s: string)
    ensures Strip(Strip(s)) == Strip(s)
  {
    StripUnpadded(Strip(s));
  }

  /** Stripping a prefix made only of droppable characters is the same as
      stripping what follows it. */
  lemma {:induction false} LStripPrefix(p: string, s: string, drop: char -> bool)
    requires All(p, drop)
    ensures Lead(p + s, drop) == |p| + Lead(s, drop)
    ensures LStrip(p + s, drop) == LStrip(s, drop)
    decreases |p|
  {
    if p != [] {
      assert (p + s)[0] == p[0] && drop(p[0]);
      assert (p + s)[1..] == p[1..] + s;
      assert All(p[1..], drop);
      LStripPrefix(p[1..], s, drop);
    } else {
      assert p + s == s;
    }
  }

  lemma {:induction false} RStripSuffix(s: string, p: string, drop: char -> bool)
    requires All(p, drop)
    ensures Trail(s + p, drop) == |p| + Trail(s, drop)
    ensures RStrip(s + p, drop) == RStrip(s, drop)
    decreases |p|
  {
    if p != [] {
      assert (s + p)[|s + p| - 1] == p[|p| - 1] && drop(p[|p| - 1]);
      assert (s + p)[..|s + p| - 1] == s + p[..|p| - 1];
      assert All(p[..|p| - 1], drop);
      RStripSuffix(s, p[..|p| - 1], drop);
    } else {
      assert s + p == s;
    }
  }

  lemma StripAllSpace(s: string)
    requires All(s, IsSpace)
    ensures Strip(s) == []
  {
    assert s == s + [];
    LStripPrefix(s, [], IsSpace);
  }

  /** Whitespace around a string without outer whitespace is all `strip`
      removes. */
  lemma StripAround(w1: string, x: string, w2: string)
    requires All(w1, IsSpace) && All(w2, IsSpace)
    requires x != [] && !IsSpace(x[0]) && !IsSpace(x[|x| - 1])
    ensures Strip(w1 + x + w2) == x
  {
    assert w1 + x + w2 == w1 + (x + w2);
    LStripPrefix(w1, x + w2, IsSpace);
    assert Lead(x + w2, IsSpace) == 0 by {
      assert (x + w2)[0] == x[0];
    }
    assert LStrip(x + w2, IsSpace) == x + w2;
    RStripSuffix(x, w2, IsSpace);
  }

  /** `strip` only removes characters: whatever it keeps was in `s`. */
  lemma StripKeeps(s: string)
    ensures forall c | c in Strip(s) :: c in s
  {
    var pre, post := StripSplit(s);
    forall c | c in Strip(s)
      ensures c in s
    {
      var x :| 0 <= x < |Strip(s)| && Strip(s)[x] == c;
      assert s[|pre| + x] == c;
    }
  }

  /** Two leading characters that satisfy `drop` are both counted by `Lead`. */
  lemma LeadTwo(s: string, drop: char -> bool)
    requires |s| >= 2 && drop(s[0]) && drop(s[1])
    ensures Lead(s, drop) >= 2
  {
    var t := s[1..];
    assert t[0] == s[1];
    assert Lead(t, drop) >= 1;
  }

  /** Two trailing characters that satisfy `drop` are both counted by `Trail`. */
  lemma TrailTwo(s: string, drop: char -> bool)
    requires |s| >= 2 && drop(s[|s| - 1]) && drop(s[|s| - 2])
    ensures Trail(s, drop) >= 2
  {
    var t := s[..|s| - 1];
    assert t[|t| - 1] == s[|s| - 2];
    assert Trail(t, drop) >= 1;
  }

  /** `Lead` counts up to the first character `drop` rejects. */
  lemma {:induction false} LeadAt(s: string, drop: char -> bool, k: nat)
    requires k <= |s| && All(s[..k], drop) && (k == |s| || !drop(s[k]))
    ensures Lead(s, drop) == k
    decreases k
  {
    if k > 0 {
      assert s[0] == s[..k][0];
      assert s[1..][..k - 1] == s[..k][1..];
      LeadAt(s[1..], drop, k - 1);
    }
  }

  /** The first character `strip` keeps is the first non-whitespace one. */
  lemma StripFirst(s: string, k: nat)
    requires k < |s| && All(s[..k], IsSpace) && !IsSpace(s[k])
    ensures Strip(s) != [] && Strip(s)[0] == s[k]
  {
    LeadAt(s, IsSpace, k);
    var l := s[k..];
    assert l[0] == s[k];
    TrailStops(l, IsSpace, 0);
  }

  /** `Trail` never counts past a character `drop` rejects. */
  lemma {:induction false} TrailStops(s: string, drop: char -> bool, k: nat)
    requires k < |s| && !drop(s[k])
    ensures Trail(s, drop) <= |s| - 1 - k
    decreases |s|
  {
    if k < |s| - 1 && drop(s[|s| - 1]) {
      var t := s[..|s| - 1];
      assert t[k] == s[k];
      TrailStops(t, drop, k);
    }
  }

  /** `strip` leaves nothing exactly when every character is whitespace. */
  lemma StripEmptyIff(s: string)
    ensures Strip(s) == [] <==> All(s, IsSpace)
  {
    if Strip(s) == [] {
      var pre, post := StripSplit(s);
      assert s == pre + post;
      AllJoin(pre, post);
    }
    if All(s, IsSpace) {
      StripAllSpace(s);
    }
  }

  lemma AllJoin(a: string, b: string)
    requires All(a, IsSpace) && All(b, IsSpace)
    ensures All(a + b, IsSpace)
  {
    forall i | 0 <= i < |a + b|
      ensures IsSpace((a + b)[i])
    {
      if i < |a| {
        assert (a + b)[i] == a[i];
      } else {
        assert (a + b)[i] == b[i - |a|];
      }
    }
  }
}
