/**
 * `App._split_paths`: splitting the text of a drag-and-drop event into file
 * paths. Tk delivers the dropped paths separated by spaces and wraps a path
 * that itself contains spaces in braces, as in `{C:/my data/t.csv} b.xlsx`.
 *
 * The scanner reads one character at a time, keeping the tokens emitted so
 * far, the token being built and whether it is inside braces. `Step` is one
 * character, `Run` the whole scan and `Split` the result; `SplitPaths` is the
 * loop itself, proved to compute `Split`.
 */
module DropPaths {

  /** The scanner's state: `out`, `buf` and `in_brace`. */
  datatype Scan = Scan(out: seq<string>, buf: string, inBrace: bool)

  /** Nothing emitted, an empty buffer, outside braces. */
  const Start: Scan := Scan([], "", false)

  /**
   * One character: `{` opens a braced path and drops the buffer; `}` closes
   * it and emits the buffer even when empty; a space outside braces ends a
   * non-empty token; anything else is appended to the buffer.
   */
  function Step(s: Scan, ch: char): Scan
  {
    if ch == '{' then Scan(s.out, "", true)
    else if ch == '}' then Scan(s.out + [s.buf], "", false)
    else if ch == ' ' && !s.inBrace then
      (if s.buf != "" then Scan(s.out + [s.buf], "", s.inBrace) else s)
    else Scan(s.out, s.buf + [ch], s.inBrace)
  }

  /** The scanner after reading `raw` from state `s`. */
  function Run(s: Scan, raw: string): Scan
    decreases |raw|
  {
    if raw == [] then s else Run(Step(s, raw[0]), raw[1..])
  }

  /** The end of the scan: a non-empty buffer left over is the last path. */
  function Finish(s: Scan): seq<string>
  {
    if s.buf != "" then s.out + [s.buf] else s.out
  }

  /** The paths `_split_paths` returns for `raw`. */
  function Split(raw: string): seq<string>
  {
    Finish(Run(Start, raw))
  }

  /** Reading `a + b` is reading `a`, then `b`. */
  lemma {:induction false} RunConcat(s: Scan, a: string, b: string)
    ensures Run(s, a + b) == Run(Run(s, a), b)
    decreases |a|
  {
    if a == [] {
      assert a + b == b;
    } else {
      assert (a + b)[0] == a[0] && (a + b)[1..] == a[1..] + b;
      RunConcat(Step(s, a[0]), a[1..], b);
    }
  }

  /** Reading one more character is one more step. */
  lemma RunSnoc(s: Scan, a: string, ch: char)
    ensures Run(s, a + [ch]) == Step(Run(s, a), ch)
  {
    RunConcat(s, a, [ch]);
  }

  /** Tokens already emitted are never touched again: the scan only appends. */
  lemma {:induction false} RunPrefix(o: seq<string>, s: Scan, t: string)
    ensures Run(Scan(o + s.out, s.buf, s.inBrace), t)
         == Scan(o + Run(s, t).out, Run(s, t).buf, Run(s, t).inBrace)
    decreases |t|
  {
    if t != [] {
      var s' := Step(s, t[0]);
      assert (o + s.out) + [s.buf] == o + (s.out + [s.buf]);
      assert Step(Scan(o + s.out, s.buf, s.inBrace), t[0]) == Scan(o + s'.out, s'.buf, s'.inBrace);
      RunPrefix(o, s', t[1..]);
    }
  }

  /** The loop of `_split_paths`, one character at a time. */
  method SplitPaths(raw: string) returns (out: seq<string>)
    ensures out == Split(raw)
  {
    out := [];
    var buf := "";
    var inBrace := false;
    for i := 0 to |raw|
      invariant Scan(out, buf, inBrace) == Run(Start, raw[..i])
    {
      var ch := raw[i];
      assert raw[..i + 1] == raw[..i] + [ch];
      RunSnoc(Start, raw[..i], ch);
      if ch == '{' {
        inBrace := true;
        buf := "";
      } else if ch == '}' {
        inBrace := false;
        out := out + [buf];
        buf := "";
      } else if ch == ' ' && !inBrace {
        if buf != "" {
          out := out + [buf];
          buf := "";
        }
      } else {
        buf := buf + [ch];
      }
    }
    if buf != "" {
      out := out + [buf];
    }
    assert raw[..|raw|] == raw;
  }

  // ---------------------------------------------------------------------
  // What the scan does

  /** Neither the emitted tokens nor the buffer hold a brace. */
  predicate BraceFree(t: string)
  {
    '{' !in t && '}' !in t
  }

  predicate Clean(s: Scan)
  {
    BraceFree(s.buf) && forall t :: t in s.out ==> BraceFree(t)
  }

  lemma {:induction false} RunClean(s: Scan, raw: string)
    requires Clean(s)
    ensures Clean(Run(s, raw))
    decreases |raw|
  {
    if raw != [] {
      assert Clean(Step(s, raw[0]));
      RunClean(Step(s, raw[0]), raw[1..]);
    }
  }

  /** Brace characters are delimiters: no returned path contains one. */
  lemma SplitNoBraces(raw: string)
    ensures forall t :: t in Split(raw) ==> BraceFree(t)
  {
    RunClean(Start, raw);
  }

  lemma {:induction false} RunNoEmpty(s: Scan, raw: string)
    requires "" !in s.out && '}' !in raw
    ensures "" !in Run(s, raw).out
    decreases |raw|
  {
    if raw != [] {
      assert raw[0] != '}' && '}' !in raw[1..];
      RunNoEmpty(Step(s, raw[0]), raw[1..]);
    }
  }

  /**
   * Only `}` can emit an empty token: with no closing brace in the input,
   * runs of spaces and an empty trailing buffer produce no empty paths.
   */
  lemma SplitNoEmpty(raw: string)
    requires '}' !in raw
    ensures "" !in Split(raw)
  {
    RunNoEmpty(Start, raw);
  }

  /**
   * Characters that do not end a token are appended to the buffer as they
   * are: inside braces this includes spaces.
   */
  lemma {:induction false} Accumulate(s: Scan, t: string)
    requires BraceFree(t)
    requires s.inBrace || ' ' !in t
    ensures Run(s, t) == Scan(s.out, s.buf + t, s.inBrace)
    decreases |t|
  {
    if t == [] {
      assert s.buf + t == s.buf;
    } else {
      assert t[0] in t && BraceFree(t[1..]) && (s.inBrace || ' ' !in t[1..]);
      assert (s.buf + [t[0]]) + t[1..] == s.buf + t;
      Accumulate(Step(s, t[0]), t[1..]);
    }
  }

  /** A space outside braces separates: the two sides are split independently. */
  lemma SplitSpaceJoin(a: string, b: string)
    requires !Run(Start, a).inBrace
    ensures Split(a + " " + b) == Split(a) + Split(b)
  {
    var s := Run(Start, a);
    RunConcat(Start, a + " ", b);
    RunSnoc(Start, a, ' ');
    assert Step(s, ' ') == Scan(Split(a), "", false);
    RunPrefix(Split(a), Start, b);
    assert Scan(Split(a) + Start.out, Start.buf, Start.inBrace) == Scan(Split(a), "", false);
  }

  /**
   * `}` always emits its buffer, even an empty one, and leaves the scanner
   * outside braces with an empty buffer.
   */
  lemma SplitCloseBrace(a: string, b: string)
    ensures Split(a + "}" + b) == Run(Start, a).out + [Run(Start, a).buf] + Split(b)
  {
    var s := Run(Start, a);
    RunConcat(Start, a + "}", b);
    RunSnoc(Start, a, '}');
    RunPrefix(s.out + [s.buf], Start, b);
    assert Scan(s.out + [s.buf] + Start.out, Start.buf, Start.inBrace) == Step(s, '}');
  }

  /**
   * A braced path is one token with its spaces kept, and whatever was in
   * the buffer before the `{` is discarded.
   */
  lemma SplitBraced(a: string, t: string, b: string)
    requires BraceFree(t)
    ensures Split(a + "{" + t + "}" + b) == Run(Start, a).out + [t] + Split(b)
  {
    var s := Run(Start, a);
    SplitCloseBrace(a + "{" + t, b);
    RunConcat(Start, a + "{", t);
    RunSnoc(Start, a, '{');
    Accumulate(Scan(s.out, "", true), t);
    assert "" + t == t;
  }

  /** A single path with no spaces and no braces comes back unchanged. */
  lemma SplitWord(w: string)
    requires w != "" && BraceFree(w) && ' ' !in w
    ensures Split(w) == [w]
  {
    Accumulate(Start, w);
    assert Start.buf + w == w;
  }
}
