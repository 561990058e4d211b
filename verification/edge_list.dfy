/**
 * Parsing of edge-list lines `NODE1 NODE2 [KEY=VALUE ...]` as
 * `load_graph_with_attributes` does it (graph.py:8-11): the first two tokens
 * are the endpoints, every further token is split on `=` and must give exactly
 * a key and a value, and a later key overrides an earlier one in the same line.
 */
module EdgeList {
  import opened Wrappers
  import opened Tokens

  type Label = string
  type Attrs = map<string, string>

  /** One parsed line: an edge and the attributes it carries. */
  datatype EdgeLine = EdgeLine(u: Label, v: Label, attrs: Attrs)

  /** Why one line is rejected. */
  datatype LineError =
    | TooFewTokens(found: nat)          // `parts[0]` or `parts[1]` raises IndexError
    | MalformedAttribute(token: string) // unpacking `attr.split('=')` raises ValueError

  /** Why a whole load is rejected: the first bad line and its reason. */
  datatype LoadError = LoadError(line: nat, reason: LineError)

  function Count(s: string, c: char): nat {
    if s == [] then 0 else (if s[0] == c then 1 else 0) + Count(s[1..], c)
  }

  /** The pieces joined back with `sep` between them. */
  function JoinWith(parts: seq<string>, sep: char): string
    requires parts != []
  {
    if |parts| == 1 then parts[0] else parts[0] + [sep] + JoinWith(parts[1..], sep)
  }

  /** Python's `s.split(sep)`: every occurrence of `sep` cuts, empty pieces are kept. */
  function SplitOn(s: string, sep: char): (parts: seq<string>)
    ensures |parts| == Count(s, sep) + 1
    ensures forall i :: 0 <= i < |parts| ==> sep !in parts[i]
    ensures JoinWith(parts, sep) == s
  {
    if s == [] then [""]
    else
      var rest := SplitOn(s[1..], sep);
      if s[0] == sep then [""] + rest
      else
        assert JoinWith(rest, sep) == rest[0] + (if |rest| == 1 then [] else [sep] + JoinWith(rest[1..], sep));
        [[s[0]] + rest[0]] + rest[1..]
  }

  /** An attribute token `k=v` unpacks iff it contains exactly one `=`. */
  predicate WellFormed(tok: string) {
    Count(tok, '=') == 1
  }

  /** `k, v = tok.split('=')`: the key and value, or None where unpacking fails. */
  function SplitAttribute(tok: string): (r: Option<(string, string)>)
    ensures r.Some? <==> WellFormed(tok)
    ensures r.Some? ==> tok == r.value.0 + "=" + r.value.1
    ensures r.Some? ==> '=' !in r.value.0 && '=' !in r.value.1
  {
    var parts := SplitOn(tok, '=');
    if |parts| == 2 then
      assert JoinWith(parts[1..], '=') == parts[1];
      Some((parts[0], parts[1]))
    else None
  }

  function Key(tok: string): string
    requires WellFormed(tok)
  {
    SplitAttribute(tok).value.0
  }

  function Value(tok: string): string
    requires WellFormed(tok)
  {
    SplitAttribute(tok).value.1
  }

  /**
   * The dict comprehension of graph.py:11 over the attribute tokens: tokens are
   * taken left to right, the first malformed one aborts with that token, and a
   * repeated key keeps the value of its last occurrence.
   */
  function ParseAttributes(toks: seq<string>): (r: Result<Attrs, string>)
    ensures r.Success? <==> forall i :: 0 <= i < |toks| ==> WellFormed(toks[i])
    ensures r.Failure? ==> r.error in toks && !WellFormed(r.error)
  {
    if toks == [] then Success(map[])
    else
      var init := toks[..|toks| - 1];
      var last := toks[|toks| - 1];
      match ParseAttributes(init)
      case Failure(bad) => Failure(bad)
      case Success(m) =>
        match SplitAttribute(last)
        case None => Failure(last)
        case Some(kv) =>
          assert forall i :: 0 <= i < |init| ==> init[i] == toks[i];
          Success(m[kv.0 := kv.1])
  }

  /** `line.strip().split()` followed by the unpacking of graph.py:10-11. */
  function ParseLine(line: string): (r: Result<EdgeLine, LineError>)
    ensures r.Success? <==> |Split(line)| >= 2 && ParseAttributes(Split(line)[2..]).Success?
    ensures r.Success? ==> r.value.u == Split(line)[0] && r.value.v == Split(line)[1]
    ensures r.Success? ==> r.value.attrs == ParseAttributes(Split(line)[2..]).value
    ensures r.Failure? && r.error.TooFewTokens? ==> r.error.found == |Split(line)| && |Split(line)| < 2
    ensures r.Failure? && r.error.MalformedAttribute? ==>
      |Split(line)| >= 2 && r.error.token in Split(line)[2..] && !WellFormed(r.error.token)
    ensures r.Failure? && r.error.MalformedAttribute? ==>
      r.error.token == ParseAttributes(Split(line)[2..]).error
  {
    var parts := Split(line);
    if |parts| < 2 then Failure(TooFewTokens(|parts|))
    else
      match ParseAttributes(parts[2..])
      case Failure(bad) => Failure(MalformedAttribute(bad))
      case Success(attrs) => Success(EdgeLine(parts[0], parts[1], attrs))
  }

  /** Every line in order; the first line that fails aborts the whole load. */
  function ParseLines(lines: seq<string>): (r: Result<seq<EdgeLine>, LoadError>)
    ensures r.Success? ==> |r.value| == |lines|
    ensures r.Failure? ==> r.error.line < |lines|
  {
    if lines == [] then Success([])
    else
      var n := |lines| - 1;
      match ParseLines(lines[..n])
      case Failure(e) => Failure(e)
      case Success(es) =>
        match ParseLine(lines[n])
        case Failure(why) => Failure(LoadError(n, why))
        case Success(e) => Success(es + [e])
  }

  /** A key given several times in one line keeps the value of its last occurrence. */
  lemma {:induction false} LastKeyWins(toks: seq<string>, i: nat)
    requires ParseAttributes(toks).Success?
    requires i < |toks|
    requires forall j :: i < j < |toks| ==> Key(toks[j]) != Key(toks[i])
    ensures Key(toks[i]) in ParseAttributes(toks).value
    ensures ParseAttributes(toks).value[Key(toks[i])] == Value(toks[i])
    decreases |toks|
  {
    var n := |toks| - 1;
    var init := toks[..n];
    var m := ParseAttributes(init).value;
    assert ParseAttributes(toks).value == m[Key(toks[n]) := Value(toks[n])];
    if i < n {
      assert init[i] == toks[i];
      assert forall j :: i < j < |init| ==> init[j] == toks[j];
      LastKeyWins(init, i);
    }
  }

  /** The parsed map has exactly the keys that some token names. */
  lemma {:induction false} AttributeKeys(toks: seq<string>, k: string)
    requires ParseAttributes(toks).Success?
    ensures k in ParseAttributes(toks).value <==> exists i :: 0 <= i < |toks| && Key(toks[i]) == k
    decreases |toks|
  {
    if toks != [] {
      var n := |toks| - 1;
      var init := toks[..n];
      assert forall j :: 0 <= j < n ==> init[j] == toks[j];
      AttributeKeys(init, k);
      assert ParseAttributes(toks).value == ParseAttributes(init).value[Key(toks[n]) := Value(toks[n])];
      if exists i :: 0 <= i < |toks| && Key(toks[i]) == k {
        var i :| 0 <= i < |toks| && Key(toks[i]) == k;
        if i < n {
          assert Key(init[i]) == k;
        }
      }
    }
  }

  /** The token a failed attribute parse reports is the first malformed one. */
  lemma {:induction false} FirstMalformedToken(toks: seq<string>)
    requires ParseAttributes(toks).Failure?
    ensures exists i :: (0 <= i < |toks| && toks[i] == ParseAttributes(toks).error
                         && forall j :: 0 <= j < i ==> WellFormed(toks[j]))
    decreases |toks|
  {
    var n := |toks| - 1;
    var init := toks[..n];
    assert forall j :: 0 <= j < n ==> init[j] == toks[j];
    if ParseAttributes(init).Failure? {
      FirstMalformedToken(init);
      var i :| 0 <= i < |init| && init[i] == ParseAttributes(init).error
        && (forall j :: 0 <= j < i ==> WellFormed(init[j]));
      assert toks[i] == ParseAttributes(toks).error;
    } else {
      assert toks[n] == ParseAttributes(toks).error;
    }
  }

  /**
   * A line written as two endpoint tokens followed by well-formed attribute
   * tokens, separated by any whitespace runs, parses back into those endpoints
   * and the attributes of those tokens; with no attribute tokens the map is empty.
   */
  lemma {:induction false} ParseWrittenLine(u: Label, v: Label, toks: seq<string>, gaps: seq<string>)
    requires IsToken(u) && IsToken(v)
    requires forall i :: 0 <= i < |toks| ==> IsToken(toks[i]) && WellFormed(toks[i])
    requires Separating([u, v] + toks, gaps)
    ensures ParseLine(Interleave([u, v] + toks, gaps)).Success?
    ensures ParseLine(Interleave([u, v] + toks, gaps)).value.u == u
    ensures ParseLine(Interleave([u, v] + toks, gaps)).value.v == v
    ensures ParseLine(Interleave([u, v] + toks, gaps)).value.attrs == ParseAttributes(toks).value
    ensures toks == [] ==> ParseLine(Interleave([u, v] + toks, gaps)).value.attrs == map[]
  {
    var ws := [u, v] + toks;
    assert forall i :: 0 <= i < |ws| ==> IsToken(ws[i]);
    SplitInterleave(ws, gaps);
    var line := Interleave(ws, gaps);
    assert Split(line) == ws;
    assert ws[0] == u && ws[1] == v && ws[2..] == toks;
    assert ParseAttributes(toks).Success?;
    assert ParseLine(line) == Success(EdgeLine(u, v, ParseAttributes(toks).value));
  }

  /** A load succeeds iff every line parses, and then yields each line's edge in file order. */
  lemma {:induction false} ParseLinesSucceeds(lines: seq<string>)
    ensures ParseLines(lines).Success? <==> forall i :: 0 <= i < |lines| ==> ParseLine(lines[i]).Success?
    ensures ParseLines(lines).Success? ==>
      forall i :: 0 <= i < |lines| ==> ParseLines(lines).value[i] == ParseLine(lines[i]).value
    decreases |lines|
  {
    if lines != [] {
      var n := |lines| - 1;
      var init := lines[..n];
      assert forall j :: 0 <= j < n ==> init[j] == lines[j];
      ParseLinesSucceeds(init);
    }
  }

  /** A failed load names the first line that does not parse, with that line's own error. */
  lemma {:induction false} ParseLinesFirstError(lines: seq<string>)
    requires ParseLines(lines).Failure?
    ensures var e := ParseLines(lines).error;
      ParseLine(lines[e.line]) == Failure(e.reason)
      && forall j :: 0 <= j < e.line ==> ParseLine(lines[j]).Success?
    decreases |lines|
  {
    var n := |lines| - 1;
    var init := lines[..n];
    assert forall j :: 0 <= j < n ==> init[j] == lines[j];
    if ParseLines(init).Failure? {
      ParseLinesFirstError(init);
    } else {
      ParseLinesSucceeds(init);
    }
  }

  /** Once a prefix of the lines fails, no later line changes the outcome of the load. */
  lemma {:induction false} ParseLinesStopsAtFailure(lines: seq<string>, k: nat)
    requires k <= |lines|
    requires ParseLines(lines[..k]).Failure?
    ensures ParseLines(lines) == ParseLines(lines[..k])
    decreases |lines| - k
  {
    if k < |lines| {
      assert lines[..k + 1][..k] == lines[..k];
      ParseLinesStopsAtFailure(lines, k + 1);
    } else {
      assert lines[..k] == lines;
    }
  }

  /** The load of the first `i + 1` lines is the load of the first `i` followed by line `i`. */
  lemma ParseLinesStep(lines: seq<string>, i: nat)
    requires i < |lines|
    ensures ParseLines(lines[..i + 1]) ==
      match ParseLines(lines[..i])
      case Failure(err) => Failure(err)
      case Success(es) =>
        match ParseLine(lines[i])
        case Failure(why) => Failure(LoadError(i, why))
        case Success(e) => Success(es + [e])
  {
    assert lines[..i + 1][..i] == lines[..i];
  }
}
