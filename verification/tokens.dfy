/**
 * Whitespace tokenisation of one input line: the `line.strip().split()` that
 * `load_graph_with_attributes` applies to every line of an edge-list file.
 * Splitting on runs of whitespace already ignores leading and trailing
 * whitespace, so the `strip()` needs no separate model.
 */
module Tokens {

  /** The ASCII characters Python's `str.split()` treats as whitespace. */
  predicate IsSpace(c: char) {
    c == ' ' || c == '\t' || c == '\n' || c == '\r' || c == '\U{000B}' || c == '\U{000C}'
    || ('\U{001C}' <= c <= '\U{001F}')
  }

  predicate NoSpace(w: string) {
    forall i :: 0 <= i < |w| ==> !IsSpace(w[i])
  }

  /** A token as `split()` produces it: non-empty and free of whitespace. */
  predicate IsToken(w: string) {
    w != [] && NoSpace(w)
  }

  /** The longest whitespace-free prefix of `s`. */
  function Word(s: string): (w: string)
    ensures w <= s && NoSpace(w)
    ensures |w| < |s| ==> IsSpace(s[|w|])
  {
    if s == [] || IsSpace(s[0]) then [] else [s[0]] + Word(s[1..])
  }

  /** The maximal whitespace-free runs of `s`, left to right. */
  function Split(s: string): (r: seq<string>)
    ensures forall i :: 0 <= i < |r| ==> IsToken(r[i])
    decreases |s|
  {
    if s == [] then []
    else if IsSpace(s[0]) then Split(s[1..])
    else
      var w := Word(s);
      [w] + Split(s[|w|..])
  }

  /** `s` with every whitespace character removed. */
  function Squeeze(s: string): string {
    if s == [] then [] else (if IsSpace(s[0]) then [] else [s[0]]) + Squeeze(s[1..])
  }

  function Concat(ws: seq<string>): string {
    if ws == [] then [] else ws[0] + Concat(ws[1..])
  }

  predicate AllSpace(s: string) {
    forall i :: 0 <= i < |s| ==> IsSpace(s[i])
  }

  /**
   * A line written from tokens `ws` and whitespace runs `gaps`: `gaps[0]`
   * before the first token, `gaps[i]` between tokens `i - 1` and `i`, and the
   * last gap after the last token.
   */
  function Interleave(ws: seq<string>, gaps: seq<string>): string
    requires |gaps| == |ws| + 1
  {
    if ws == [] then gaps[0] else gaps[0] + ws[0] + Interleave(ws[1..], gaps[1..])
  }

  /** Gaps that separate tokens: all whitespace, and non-empty between two tokens. */
  predicate Separating(ws: seq<string>, gaps: seq<string>) {
    && |gaps| == |ws| + 1
    && (forall i :: 0 <= i < |gaps| ==> AllSpace(gaps[i]))
    && (forall i :: 0 < i < |ws| ==> gaps[i] != [])
  }

  lemma {:induction false} SqueezeAppend(a: string, b: string)
    ensures Squeeze(a + b) == Squeeze(a) + Squeeze(b)
    decreases |a|
  {
    if a == [] {
      assert a + b == b;
    } else {
      assert (a + b)[1..] == a[1..] + b;
      SqueezeAppend(a[1..], b);
    }
  }

  lemma {:induction false} SqueezeOfWord(w: string)
    requires NoSpace(w)
    ensures Squeeze(w) == w
    decreases |w|
  {
    if w != [] {
      SqueezeOfWord(w[1..]);
    }
  }

  /** Splitting loses only whitespace: the tokens, glued together, are the non-blank characters. */
  lemma {:induction false} SplitKeepsContent(s: string)
    ensures Concat(Split(s)) == Squeeze(s)
    decreases |s|
  {
    if s == [] {
    } else if IsSpace(s[0]) {
      SplitKeepsContent(s[1..]);
    } else {
      var w := Word(s);
      assert s == w + s[|w|..];
      SplitKeepsContent(s[|w|..]);
      SqueezeAppend(w, s[|w|..]);
      SqueezeOfWord(w);
    }
  }

  /** Leading whitespace is skipped: it never starts or changes a token. */
  lemma {:induction false} SplitSkipsSpace(sp: string, s: string)
    requires AllSpace(sp)
    ensures Split(sp + s) == Split(s)
    decreases |sp|
  {
    if sp == [] {
      assert sp + s == s;
    } else {
      assert (sp + s)[1..] == sp[1..] + s;
      SplitSkipsSpace(sp[1..], s);
    }
  }

  lemma {:induction false} WordOfToken(w: string, t: string)
    requires NoSpace(w)
    requires t == [] || IsSpace(t[0])
    ensures Word(w + t) == w
    decreases |w|
  {
    if w == [] {
      assert w + t == t;
    } else {
      assert (w + t)[1..] == w[1..] + t;
      WordOfToken(w[1..], t);
    }
  }

  /**
   * A token followed by whitespace or by the end of the line is taken whole:
   * tokens are the maximal whitespace-free runs.
   */
  lemma SplitTokenThen(w: string, t: string)
    requires IsToken(w)
    requires t == [] || IsSpace(t[0])
    ensures Split(w + t) == [w] + Split(t)
  {
    WordOfToken(w, t);
    assert (w + t)[0] == w[0];
    assert (w + t)[|w|..] == t;
  }

  /**
   * A line written as tokens separated by any non-empty whitespace runs, with
   * any leading and trailing whitespace, is split back into exactly those tokens.
   */
  lemma {:induction false} SplitInterleave(ws: seq<string>, gaps: seq<string>)
    requires forall i :: 0 <= i < |ws| ==> IsToken(ws[i])
    requires Separating(ws, gaps)
    ensures Split(Interleave(ws, gaps)) == ws
    decreases |ws|
  {
    if ws == [] {
      SplitSkipsSpace(gaps[0], []);
      assert gaps[0] + [] == gaps[0];
    } else {
      var t := Interleave(ws[1..], gaps[1..]);
      assert Separating(ws[1..], gaps[1..]) by {
        assert forall i :: 0 <= i < |gaps[1..]| ==> gaps[1..][i] == gaps[i + 1];
        assert forall i :: 0 < i < |ws[1..]| ==> gaps[1..][i] == gaps[i + 1];
      }
      SplitInterleave(ws[1..], gaps[1..]);
      assert t == [] || IsSpace(t[0]) by {
        if |ws| == 1 {
          assert t == gaps[1];
        } else {
          assert gaps[1] != [];
          assert t == gaps[1] + ws[1] + Interleave(ws[2..], gaps[2..]);
        }
      }
      SplitTokenThen(ws[0], t);
      assert Interleave(ws, gaps) == gaps[0] + (ws[0] + t);
      SplitSkipsSpace(gaps[0], ws[0] + t);
    }
  }

  /** The whitespace runs of `s` around and between its tokens. */
  function Gaps(s: string): (g: seq<string>)
    ensures |g| == |Split(s)| + 1
    decreases |s|
  {
    if s == [] then [""]
    else if IsSpace(s[0]) then
      var g := Gaps(s[1..]);
      [[s[0]] + g[0]] + g[1..]
    else
      [""] + Gaps(s[|Word(s)|..])
  }

  lemma {:induction false} GapsSeparate(s: string)
    ensures Separating(Split(s), Gaps(s))
    decreases |s|
  {
    if s == [] {
    } else if IsSpace(s[0]) {
      var g := Gaps(s[1..]);
      GapsSeparate(s[1..]);
      var g' := Gaps(s);
      assert AllSpace(g'[0]);
      assert forall i :: 0 < i < |g'| ==> g'[i] == g[i];
    } else {
      var r := s[|Word(s)|..];
      var ws, g := Split(r), Gaps(r);
      GapsSeparate(r);
      assert ws != [] ==> g[0] != [] by {
        if ws != [] {
          assert r != [] && IsSpace(r[0]);
        }
      }
      assert forall i :: 0 < i < |Gaps(s)| ==> Gaps(s)[i] == g[i - 1];
    }
  }

  lemma InterleaveWiden(ws: seq<string>, g: seq<string>, c: char)
    requires |g| == |ws| + 1
    ensures Interleave(ws, [[c] + g[0]] + g[1..]) == [c] + Interleave(ws, g)
  {
    var g' := [[c] + g[0]] + g[1..];
    assert g'[1..] == g[1..];
    if ws != [] {
      assert Interleave(ws, g') == ([c] + g[0]) + ws[0] + Interleave(ws[1..], g[1..]);
    }
  }

  lemma InterleaveWord(w: string, ws: seq<string>, g: seq<string>)
    requires |g| == |ws| + 1
    ensures Interleave([w] + ws, [""] + g) == w + Interleave(ws, g)
  {
    assert ([w] + ws)[1..] == ws && ([""] + g)[1..] == g;
  }

  lemma {:induction false} InterleaveGaps(s: string)
    ensures Interleave(Split(s), Gaps(s)) == s
    decreases |s|
  {
    if s == [] {
    } else if IsSpace(s[0]) {
      InterleaveGaps(s[1..]);
      InterleaveWiden(Split(s[1..]), Gaps(s[1..]), s[0]);
      assert s == [s[0]] + s[1..];
    } else {
      var w := Word(s);
      var r := s[|w|..];
      InterleaveGaps(r);
      assert Split(s) == [w] + Split(r);
      assert Gaps(s) == [""] + Gaps(r);
      InterleaveWord(w, Split(r), Gaps(r));
      assert s == w + r;
    }
  }

  /**
   * Every line is its tokens interleaved with separating whitespace runs; with
   * `SplitInterleave`, the tokens of a line are exactly the `ws` of any way of
   * writing it as `Interleave(ws, gaps)`.
   */
  lemma SplitIsInterleaving(s: string)
    ensures Separating(Split(s), Gaps(s))
    ensures Interleave(Split(s), Gaps(s)) == s
  {
    GapsSeparate(s);
    InterleaveGaps(s);
  }
}
