/**
 * The pattern compiler of the router: the placeholder finder that splits a
 * route pattern such as "/users/{id}" into literal characters and `{name}`
 * placeholders, the token form of the compiled, anchored matcher, and that
 * matcher's accept-and-capture semantics.
 *
 * The router compiles a pattern into a regular expression `^…$` in which every
 * placeholder became the capture `([^/]+)` and every other character stands for
 * itself. Here that expression is a sequence of tokens, and `Match` is the
 * backtracking matcher it denotes: literal characters match exactly, a capture
 * takes a non-empty run of characters without '/', longest first, and the
 * whole path must be consumed.
 */
module Patterns {
  import opened Common

  /** A piece of a route pattern: one literal character, or a `{name}` placeholder. */
  datatype Piece = Literal(c: char) | Placeholder(name: string)

  /** A token of a compiled matcher: a character matched exactly, or the capture `([^/]+)`. */
  datatype Token = Char(c: char) | Capture

  /** One match of the placeholder finder: its whole text `{name}` and the name inside the braces. */
  datatype Occurrence = Occurrence(text: string, name: string)

  /** The characters a regular expression gives a meaning of their own (those that regexp.QuoteMeta escapes). */
  predicate RegexMeta(c: char) {
    c in "\\.+*?()|[]{}^$"
  }

  // ---------------------------------------------------------------------------
  // The placeholder finder `\{([^/]+)\}`, leftmost-first and greedy
  // ---------------------------------------------------------------------------

  /** The index of the first '/' at or after `i`, or `|s|` when there is none. */
  function SegmentEnd(s: string, i: nat): (e: nat)
    requires i <= |s|
    ensures i <= e <= |s|
    ensures forall k :: i <= k < e ==> s[k] != '/'
    ensures e < |s| ==> s[e] == '/'
    decreases |s| - i
  {
    if i == |s| || s[i] == '/' then i else SegmentEnd(s, i + 1)
  }

  /**
   * The largest index `j` with `2 <= j < e` and `s[j] == '}'`, or 0 when there is none.
   * With `s[0] == '{'`, it is where the greedy `[^/]+` of the finder backs off to.
   */
  function LastClose(s: string, e: nat): (j: nat)
    requires e <= |s|
    ensures j == 0 || (2 <= j < e && s[j] == '}')
    ensures forall k :: 2 <= k < e && j < k ==> s[k] != '}'
    decreases e
  {
    if e <= 2 then 0 else if s[e - 1] == '}' then e - 1 else LastClose(s, e - 1)
  }

  /**
   * Where the placeholder at the head of `p` closes, or 0 when `p` does not
   * start with one: the index of the last '}' of the first segment, provided
   * `p` starts with '{' and at least one character lies between the braces.
   */
  function HeadClose(p: string): (j: nat)
    requires p != []
    ensures j == 0 || (2 <= j < |p| && p[0] == '{' && p[j] == '}')
  {
    if p[0] == '{' then LastClose(p, SegmentEnd(p, 1)) else 0
  }

  /**
   * Splits a pattern as the finder `\{([^/]+)\}` of FindAllStringSubmatch does:
   * scanning left to right, a '{' opens a placeholder when the same segment has a
   * later '}' with at least one character between them; the name then runs,
   * greedily, to the last such '}'. Every other character is literal.
   */
  function Scan(p: string): seq<Piece>
    decreases |p|
  {
    if p == [] then []
    else
      var j := HeadClose(p);
      if j != 0 then [Placeholder(p[1..j])] + Scan(p[j + 1..])
      else [Literal(p[0])] + Scan(p[1..])
  }

  /** The text one piece stands for. */
  function RenderPiece(pc: Piece): string {
    match pc
    case Literal(c) => [c]
    case Placeholder(n) => ['{'] + n + ['}']
  }

  /** The text a sequence of pieces stands for. */
  function Render(ps: seq<Piece>): string {
    if ps == [] then [] else RenderPiece(ps[0]) + Render(ps[1..])
  }

  lemma RenderCons(pc: Piece, ps: seq<Piece>)
    ensures Render([pc] + ps) == RenderPiece(pc) + Render(ps)
  {
    assert ([pc] + ps)[1..] == ps;
  }

  /** One step of the finder: the head piece of a non-empty pattern and where scanning resumes. */
  lemma ScanStep(p: string) returns (j: nat)
    requires p != []
    ensures j == 0 ==> Scan(p) == [Literal(p[0])] + Scan(p[1..])
    ensures j != 0 ==> 2 <= j < |p| && p[0] == '{' && p[j] == '}'
    ensures j != 0 ==> Scan(p) == [Placeholder(p[1..j])] + Scan(p[j + 1..])
    ensures j == HeadClose(p)
  {
    j := HeadClose(p);
  }

  /** A placeholder found at the head of a pattern does not span a '/'. */
  lemma HeadPlaceholderInSegment(p: string)
    requires p != [] && HeadClose(p) != 0
    ensures '/' !in p[1..HeadClose(p)]
  {
    var j := HeadClose(p);
    assert forall k :: 0 <= k < j - 1 ==> p[1..j][k] == p[k + 1];
  }

  /** The finder loses nothing: the pieces render back to the pattern they were found in. */
  lemma {:induction false} RenderScan(p: string)
    ensures Render(Scan(p)) == p
    decreases |p|
  {
    if p != [] {
      var j := ScanStep(p);
      if j != 0 {
        RenderScan(p[j + 1..]);
        RenderPlaceholderHead(p, j, Scan(p[j + 1..]));
      } else {
        RenderScan(p[1..]);
        RenderLiteralHead(p, Scan(p[1..]));
      }
    }
  }

  /** A literal head piece, then a tail that renders to the rest of `p`, renders to `p`. */
  lemma RenderLiteralHead(p: string, tail: seq<Piece>)
    requires p != [] && Render(tail) == p[1..]
    ensures Render([Literal(p[0])] + tail) == p
  {
    RenderCons(Literal(p[0]), tail);
    ConsSlice(p);
  }

  /** A placeholder head piece closing at `j`, then a tail that renders to the rest of `p`, renders to `p`. */
  lemma RenderPlaceholderHead(p: string, j: nat, tail: seq<Piece>)
    requires 2 <= j < |p| && p[0] == '{' && p[j] == '}' && Render(tail) == p[j + 1..]
    ensures Render([Placeholder(p[1..j])] + tail) == p
  {
    RenderCons(Placeholder(p[1..j]), tail);
    Reassemble(p, j);
  }

  lemma ConsSlice(p: string)
    requires p != []
    ensures p == [p[0]] + p[1..]
  {
  }

  /** A run without '/' at the end of `a` carries the segment on into `b`. */
  lemma {:induction false} SegmentEndAcross(a: string, b: string, i: nat)
    requires i <= |a| && forall k :: i <= k < |a| ==> a[k] != '/'
    ensures SegmentEnd(a + b, i) == |a| + SegmentEnd(b, 0)
    decreases |a| - i
  {
    if i == |a| {
      SegmentEndShift(a, b, 0);
    } else {
      assert (a + b)[i] == a[i];
      SegmentEndAcross(a, b, i + 1);
    }
  }

  /** Within `b`, the segment end of `a + b` is that of `b`, shifted by `|a|`. */
  lemma {:induction false} SegmentEndShift(a: string, b: string, k: nat)
    requires k <= |b|
    ensures SegmentEnd(a + b, |a| + k) == |a| + SegmentEnd(b, k)
    decreases |b| - k
  {
    if k < |b| {
      assert (a + b)[|a| + k] == b[k];
      if b[k] != '/' {
        SegmentEndShift(a, b, k + 1);
      }
    }
  }

  /** The greedy backing-off settles on `j` when no later '}' lies before `e`. */
  lemma {:induction false} LastCloseAt(s: string, j: nat, e: nat)
    requires 2 <= j < e <= |s| && s[j] == '}'
    requires forall k :: j < k < e ==> s[k] != '}'
    ensures LastClose(s, e) == j
    decreases e
  {
    if e - 1 != j {
      LastCloseAt(s, j, e - 1);
    }
  }

  /** A placeholder at the head of a pattern closes at the last '}' of its segment. */
  lemma PlaceholderHead(n: string, q: string)
    requires IsCapture(n) && '}' !in q[..SegmentEnd(q, 0)]
    ensures Scan(['{'] + n + ['}'] + q) == [Placeholder(n)] + Scan(q)
  {
    var a := ['{'] + n + ['}'];
    var p := a + q;
    assert p == ['{'] + n + ['}'] + q;
    assert forall k :: 1 <= k < |a| ==> a[k] != '/' by {
      forall k | 1 <= k < |a| ensures a[k] != '/' {
        if k <= |n| { assert a[k] == n[k - 1]; }
      }
    }
    SegmentEndAcross(a, q, 1);
    var e := SegmentEnd(p, 1);
    assert e == |a| + SegmentEnd(q, 0);
    forall k | |n| + 1 < k < e ensures p[k] != '}' {
      assert p[k] == q[k - |a|] == q[..SegmentEnd(q, 0)][k - |a|];
    }
    LastCloseAt(p, |n| + 1, e);
    assert HeadClose(p) == |n| + 1;
    assert p[1..|n| + 1] == n && p[|n| + 2..] == q;
  }

  /**
   * The finder misses no placeholder: after text without '{', a `{name}` whose
   * name is a possible capture and whose segment has no further '}' is the next
   * piece found, and scanning resumes right after its closing brace.
   */
  lemma ScanFindsFirst(lit: string, n: string, q: string)
    requires '{' !in lit && IsCapture(n) && '}' !in q[..SegmentEnd(q, 0)]
    ensures Scan(lit + ['{'] + n + ['}'] + q) == Literals(lit) + [Placeholder(n)] + Scan(q)
  {
    var rest := ['{'] + n + ['}'] + q;
    GroupTail(lit, ['{'], n, ['}'], q);
    ScanLiteralPrefix(lit, rest);
    PlaceholderHead(n, q);
    GroupHead(Literals(lit), [Placeholder(n)], Scan(q));
  }

  lemma GroupTail<T>(a: seq<T>, b: seq<T>, c: seq<T>, d: seq<T>, e: seq<T>)
    ensures a + b + c + d + e == a + (b + c + d + e)
  {
  }

  lemma GroupHead<T>(a: seq<T>, b: seq<T>, c: seq<T>)
    ensures a + (b + c) == a + b + c
  {
  }

  /** Text without '{' is literal: the finder starts no placeholder in it. */
  lemma {:induction false} ScanLiteralPrefix(s: string, rest: string)
    requires '{' !in s
    ensures Scan(s + rest) == Literals(s) + Scan(rest)
    decreases |s|
  {
    if s == [] {
      assert s + rest == rest;
    } else {
      var p := s + rest;
      assert p[0] == s[0] && p[1..] == s[1..] + rest;
      var j := ScanStep(p);
      ScanLiteralPrefix(s[1..], rest);
      assert Literals(s) == [Literal(s[0])] + Literals(s[1..]);
    }
  }

  /** The placeholder names, left to right, duplicates kept. */
  function Names(ps: seq<Piece>): seq<string> {
    if ps == [] then []
    else (if ps[0].Placeholder? then [ps[0].name] else []) + Names(ps[1..])
  }

  lemma NamesCons(pc: Piece, ps: seq<Piece>)
    ensures Names([pc] + ps) == (if pc.Placeholder? then [pc.name] else []) + Names(ps)
  {
    assert ([pc] + ps)[1..] == ps;
  }

  /** Every name the finder yields is a possible capture: non-empty, and never spanning a '/'. */
  lemma {:induction false} ScanNamesAreCaptures(p: string)
    ensures forall n :: n in Names(Scan(p)) ==> IsCapture(n)
    decreases |p|
  {
    if p != [] {
      var j := ScanStep(p);
      if j != 0 {
        HeadPlaceholderInSegment(p);
        ScanNamesAreCaptures(p[j + 1..]);
        NamesCons(Placeholder(p[1..j]), Scan(p[j + 1..]));
      } else {
        ScanNamesAreCaptures(p[1..]);
        NamesCons(Literal(p[0]), Scan(p[1..]));
      }
    }
  }

  /** The matches of the finder, as FindAllStringSubmatch lists them. */
  function Occurrences(ps: seq<Piece>): seq<Occurrence> {
    if ps == [] then []
    else (if ps[0].Placeholder? then [Occurrence(RenderPiece(ps[0]), ps[0].name)] else []) + Occurrences(ps[1..])
  }

  /** The compiled matcher of a sequence of pieces: each placeholder becomes a capture. */
  function Tokens(ps: seq<Piece>): seq<Token> {
    if ps == [] then []
    else (if ps[0].Placeholder? then [Capture] else [Char(ps[0].c)]) + Tokens(ps[1..])
  }

  /** Every character of `s` as a literal piece. */
  function Literals(s: string): seq<Piece> {
    if s == [] then [] else [Literal(s[0])] + Literals(s[1..])
  }

  /** Every character of `s` as a token that matches it exactly (the not yet rewritten regular expression). */
  function Chars(s: string): seq<Token> {
    if s == [] then [] else [Char(s[0])] + Chars(s[1..])
  }

  /** No literal character of the pieces is a regular-expression metacharacter. */
  predicate LiteralsSafe(ps: seq<Piece>) {
    forall i :: 0 <= i < |ps| && ps[i].Literal? ==> !RegexMeta(ps[i].c)
  }

  /**
   * A pattern the compiler handles as written: its literal text, which the
   * router copies into the regular expression without escaping, holds no
   * metacharacter.
   */
  predicate SafePattern(p: string) {
    LiteralsSafe(Scan(p))
  }

  /** strings.Replace(s, old, new, 1): the first occurrence of `pat` in `s` replaced by `rep`. */
  function ReplaceFirst(s: seq<Token>, pat: seq<Token>, rep: seq<Token>): seq<Token>
    decreases |s|
  {
    if |s| < |pat| then s
    else if s[..|pat|] == pat then rep + s[|pat|..]
    else [s[0]] + ReplaceFirst(s[1..], pat, rep)
  }

  // ---------------------------------------------------------------------------
  // Facts about the finder used by the compilation loop
  // ---------------------------------------------------------------------------

  lemma {:induction false} NamesAppend(a: seq<Piece>, b: seq<Piece>)
    ensures Names(a + b) == Names(a) + Names(b)
  {
    if a != [] {
      NamesAppend(a[1..], b);
      assert (a + b)[1..] == a[1..] + b;
    } else {
      assert a + b == b;
    }
  }

  lemma {:induction false} OccurrencesAppend(a: seq<Piece>, b: seq<Piece>)
    ensures Occurrences(a + b) == Occurrences(a) + Occurrences(b)
  {
    if a != [] {
      OccurrencesAppend(a[1..], b);
      assert (a + b)[1..] == a[1..] + b;
    } else {
      assert a + b == b;
    }
  }

  lemma {:induction false} TokensAppend(a: seq<Piece>, b: seq<Piece>)
    ensures Tokens(a + b) == Tokens(a) + Tokens(b)
  {
    if a != [] {
      TokensAppend(a[1..], b);
      assert (a + b)[1..] == a[1..] + b;
    } else {
      assert a + b == b;
    }
  }

  lemma {:induction false} CharsAppend(a: string, b: string)
    ensures Chars(a + b) == Chars(a) + Chars(b)
  {
    if a != [] {
      CharsAppend(a[1..], b);
      assert (a + b)[1..] == a[1..] + b;
    } else {
      assert a + b == b;
    }
  }

  /** Literal pieces compile to exact-match tokens and carry no placeholder. */
  lemma {:induction false} LiteralsCompile(s: string)
    ensures Tokens(Literals(s)) == Chars(s)
    ensures Names(Literals(s)) == [] && Occurrences(Literals(s)) == []
  {
    if s != [] {
      LiteralsCompile(s[1..]);
    }
  }

  /** Safe literal text compiles to tokens among which no literal '{' occurs. */
  lemma {:induction false} SafeTokensHaveNoBrace(ps: seq<Piece>)
    requires LiteralsSafe(ps)
    ensures Char('{') !in Tokens(ps)
  {
    if ps != [] {
      assert LiteralsSafe(ps[1..]) by {
        forall i | 0 <= i < |ps[1..]| && ps[1..][i].Literal?
          ensures !RegexMeta(ps[1..][i].c)
        {
          assert ps[1..][i] == ps[i + 1];
        }
      }
      SafeTokensHaveNoBrace(ps[1..]);
      assert !ps[0].Literal? || ps[0].c != '{' by {
        assert 0 < |ps|;
      }
    }
  }

  /** A pattern in which the finder finds nothing is all literal. */
  lemma {:induction false} NoOccurrencesAllLiteral(p: string)
    requires Occurrences(Scan(p)) == []
    ensures Scan(p) == Literals(p)
    decreases |p|
  {
    if p != [] {
      var j := ScanStep(p);
      if j != 0 {
        assert false;
      } else {
        NoOccurrencesAllLiteral(p[1..]);
      }
    }
  }

  lemma OccurrencesCons(pc: Piece, ps: seq<Piece>)
    ensures Occurrences([pc] + ps)
         == (if pc.Placeholder? then [Occurrence(RenderPiece(pc), pc.name)] else []) + Occurrences(ps)
  {
    assert ([pc] + ps)[1..] == ps;
  }

  lemma LiteralsCons(c: char, s: string)
    ensures Literals([c] + s) == [Literal(c)] + Literals(s)
  {
    assert ([c] + s)[1..] == s;
  }

  /** The case of SplitFirst where the pattern starts with a placeholder ending at `j`. */
  lemma SplitAtHead(p: string, j: nat)
    requires 2 <= j < |p| && p[0] == '{' && p[j] == '}'
    requires Scan(p) == [Placeholder(p[1..j])] + Scan(p[j + 1..])
    ensures p == [] + RenderPiece(Placeholder(p[1..j])) + p[j + 1..]
    ensures Scan(p) == [] + [Placeholder(p[1..j])] + Scan(p[j + 1..])
    ensures Occurrences(Scan(p))[0] == Occurrence(RenderPiece(Placeholder(p[1..j])), p[1..j])
  {
    Reassemble(p, j);
    OccurrencesCons(Placeholder(p[1..j]), Scan(p[j + 1..]));
  }

  lemma Reassemble(s: string, j: nat)
    requires 0 < j < |s|
    ensures s == [] + ([s[0]] + s[1..j] + [s[j]]) + s[j + 1..]
  {
  }

  /**
   * Splits a pattern at the first match of the finder: the literal text before
   * it, the placeholder's name, and the text after it.
   */
  lemma {:induction false} SplitFirst(p: string) returns (lit: string, name: string, q: string)
    requires Occurrences(Scan(p)) != []
    ensures p == lit + RenderPiece(Placeholder(name)) + q
    ensures Scan(p) == Literals(lit) + [Placeholder(name)] + Scan(q)
    ensures Occurrences(Scan(p))[0] == Occurrence(RenderPiece(Placeholder(name)), name)
    decreases |p|
  {
    var j := ScanStep(p);
    if j != 0 {
      lit, name, q := [], p[1..j], p[j + 1..];
      SplitAtHead(p, j);
    } else {
      var s1 := Scan(p[1..]);
      OccurrencesCons(Literal(p[0]), s1);
      var lit', name', q' := SplitFirst(p[1..]);
      lit, name, q := [p[0]] + lit', name', q';
      PrependLiteral(p, lit', RenderPiece(Placeholder(name)), q', Scan(p), s1, Placeholder(name), Scan(q));
    }
  }

  /** The case of SplitFirst where the pattern starts with a literal character. */
  lemma PrependLiteral(p: string, lit: string, r: string, q: string, ps: seq<Piece>, ps1: seq<Piece>, pc: Piece, tail: seq<Piece>)
    requires p != [] && p[1..] == lit + r + q
    requires ps == [Literal(p[0])] + ps1 && ps1 == Literals(lit) + [pc] + tail
    ensures p == ([p[0]] + lit) + r + q
    ensures ps == Literals([p[0]] + lit) + [pc] + tail
    ensures Occurrences(ps) == Occurrences(ps1)
  {
    assert p == [p[0]] + p[1..];
    LiteralsCons(p[0], lit);
    OccurrencesCons(Literal(p[0]), ps1);
  }

  /**
   * When no element of `a` equals the first token of `pat`, the first
   * occurrence of `pat` in `a + pat + b` is the one right after `a`.
   */
  lemma {:induction false} ReplaceFirstAt(a: seq<Token>, pat: seq<Token>, b: seq<Token>, rep: seq<Token>)
    requires pat != [] && pat[0] !in a
    ensures ReplaceFirst(a + pat + b, pat, rep) == a + rep + b
  {
    var s := a + pat + b;
    if a == [] {
      assert s == pat + b;
      assert s[..|pat|] == pat && s[|pat|..] == b;
    } else {
      assert s[0] == a[0] && s[..|pat|][0] == a[0];
      ReplaceFirstAt(a[1..], pat, b, rep);
      assert s[1..] == a[1..] + pat + b;
      assert a + rep + b == [a[0]] + (a[1..] + rep + b);
    }
  }

  // ---------------------------------------------------------------------------
  // The compiled matcher
  // ---------------------------------------------------------------------------

  /** The number of capture groups of a matcher. */
  function CaptureCount(ts: seq<Token>): nat {
    if ts == [] then 0 else (if ts[0].Capture? then 1 else 0) + CaptureCount(ts[1..])
  }

  /** Every placeholder contributes one name and one capture group. */
  lemma {:induction false} NamesMatchCaptures(ps: seq<Piece>)
    ensures |Names(ps)| == CaptureCount(Tokens(ps)) == |Occurrences(ps)|
  {
    if ps != [] {
      NamesMatchCaptures(ps[1..]);
      assert Tokens(ps)[1..] == Tokens(ps[1..]);
    }
  }

  /** The path a matcher spells when its captures are `caps`. */
  function Fill(ts: seq<Token>, caps: seq<string>): string
    requires |caps| == CaptureCount(ts)
  {
    if ts == [] then []
    else
      match ts[0]
      case Char(c) => [c] + Fill(ts[1..], caps)
      case Capture => caps[0] + Fill(ts[1..], caps[1..])
  }

  /** A capture of `([^/]+)`: a non-empty run of characters without '/'. */
  predicate IsCapture(s: string) {
    s != [] && '/' !in s
  }

  /**
   * The anchored matcher `ts` accepts `path` with captures `caps`: one capture
   * per group, each a valid capture, spelling the whole path.
   */
  predicate Accepts(ts: seq<Token>, path: string, caps: seq<string>) {
    && |caps| == CaptureCount(ts)
    && (forall i :: 0 <= i < |caps| ==> IsCapture(caps[i]))
    && Fill(ts, caps) == path
  }

  /**
   * FindStringSubmatch of the compiled `^…$` expression on `path`: the captured
   * groups, or None when the path does not match. A capture tries the longest
   * run first, as the leftmost-first semantics of Go's regexp package prescribes.
   */
  function Match(ts: seq<Token>, path: string): Option<seq<string>>
    decreases |ts|, 1, 0
  {
    if ts == [] then
      if path == [] then Some([]) else None
    else
      match ts[0]
      case Char(c) => if path != [] && path[0] == c then Match(ts[1..], path[1..]) else None
      case Capture => TryCapture(ts[1..], path, SegmentEnd(path, 0))
  }

  /** A capture of the first `k`, `k - 1`, …, 1 characters of `path`, followed by a match of `rest`. */
  function TryCapture(rest: seq<Token>, path: string, k: nat): Option<seq<string>>
    requires k <= |path|
    decreases |rest|, 2, k
  {
    if k == 0 then None
    else
      match Match(rest, path[k..])
      case Some(caps) => Some([path[..k]] + caps)
      case None => TryCapture(rest, path, k - 1)
  }

  /** Soundness: what the matcher returns is an acceptance of the whole path. */
  lemma {:induction false} MatchSound(ts: seq<Token>, path: string)
    ensures Match(ts, path).Some? ==> Accepts(ts, path, Match(ts, path).value)
    decreases |ts|, 1, 0
  {
    if ts != [] {
      match ts[0]
      case Char(c) =>
        if path != [] && path[0] == c {
          MatchSound(ts[1..], path[1..]);
          assert path == [c] + path[1..];
        }
      case Capture =>
        TryCaptureSound(ts[1..], path, SegmentEnd(path, 0));
        assert ts == [Capture] + ts[1..];
    }
  }

  lemma {:induction false} TryCaptureSound(rest: seq<Token>, path: string, k: nat)
    requires k <= SegmentEnd(path, 0)
    ensures TryCapture(rest, path, k).Some? ==> Accepts([Capture] + rest, path, TryCapture(rest, path, k).value)
    decreases |rest|, 2, k
  {
    if k != 0 {
      MatchSound(rest, path[k..]);
      match Match(rest, path[k..])
      case Some(caps) =>
        var all := [path[..k]] + caps;
        assert ([Capture] + rest)[1..] == rest;
        assert all[1..] == caps;
        assert path == path[..k] + path[k..];
        assert forall i :: 0 <= i < k ==> path[..k][i] == path[i];
        assert IsCapture(all[0]);
        assert forall i :: 1 <= i < |all| ==> all[i] == caps[i - 1];
      case None =>
        TryCaptureSound(rest, path, k - 1);
    }
  }

  /** Trying from `big` down reaches any length `k <= big` after which `rest` matches. */
  lemma {:induction false} TryCaptureReaches(rest: seq<Token>, path: string, big: nat, k: nat)
    requires 1 <= k <= big <= |path|
    requires Match(rest, path[k..]).Some?
    ensures TryCapture(rest, path, big).Some?
    decreases big
  {
    if big != k && Match(rest, path[big..]).None? {
      TryCaptureReaches(rest, path, big - 1, k);
    }
  }

  /** A capture must stop at the first '/', so its length is at most the first segment's. */
  lemma CaptureWithinSegment(c: string, tail: string)
    requires IsCapture(c)
    ensures |c| <= SegmentEnd(c + tail, 0)
  {
  }

  /** Completeness: whenever some captures make the matcher spell the path, the matcher succeeds. */
  lemma {:induction false} MatchComplete(ts: seq<Token>, path: string, caps: seq<string>)
    requires Accepts(ts, path, caps)
    ensures Match(ts, path).Some?
    decreases |ts|
  {
    if ts != [] {
      match ts[0]
      case Char(c) =>
        assert path == [c] + Fill(ts[1..], caps);
        MatchComplete(ts[1..], path[1..], caps);
      case Capture =>
        var tail := Fill(ts[1..], caps[1..]);
        assert path == caps[0] + tail;
        CaptureWithinSegment(caps[0], tail);
        var k := |caps[0]|;
        assert path[k..] == tail;
        assert Accepts(ts[1..], tail, caps[1..]) by {
          assert forall i :: 0 <= i < |caps[1..]| ==> caps[1..][i] == caps[i + 1];
        }
        MatchComplete(ts[1..], tail, caps[1..]);
        TryCaptureReaches(ts[1..], path, SegmentEnd(path, 0), k);
    }
  }

  /**
   * `a` outranks `b` when its capture lengths are lexicographically larger:
   * equal up to some group, then longer there. This is the order in which a
   * backtracking matcher prefers its alternatives.
   */
  predicate Outranks(a: seq<string>, b: seq<string>) {
    && a != [] && b != []
    && (|a[0]| > |b[0]| || (|a[0]| == |b[0]| && Outranks(a[1..], b[1..])))
  }

  /** The length TryCapture settles on: every longer one leaves `rest` unmatched. */
  lemma {:induction false} TryCaptureChoice(rest: seq<Token>, path: string, big: nat) returns (k: nat)
    requires big <= |path| && TryCapture(rest, path, big).Some?
    ensures 1 <= k <= big && Match(rest, path[k..]).Some?
    ensures TryCapture(rest, path, big) == Some([path[..k]] + Match(rest, path[k..]).value)
    ensures forall k' :: k < k' <= big ==> Match(rest, path[k'..]).None?
    decreases big
  {
    if Match(rest, path[big..]).Some? {
      k := big;
    } else {
      k := TryCaptureChoice(rest, path, big - 1);
    }
  }

  /**
   * Leftmost-first preference: among all ways the compiled expression can
   * accept the path, the matcher returns the one whose earlier captures are
   * longest; no acceptance outranks it.
   */
  lemma {:induction false} MatchPrefersLongest(ts: seq<Token>, path: string, caps: seq<string>)
    requires Accepts(ts, path, caps)
    ensures Match(ts, path).Some? && !Outranks(caps, Match(ts, path).value)
    decreases |ts|
  {
    MatchComplete(ts, path, caps);
    if ts != [] {
      match ts[0]
      case Char(c) =>
        assert path == [c] + Fill(ts[1..], caps);
        MatchPrefersLongest(ts[1..], path[1..], caps);
      case Capture =>
        var tail := Fill(ts[1..], caps[1..]);
        assert path == caps[0] + tail;
        CaptureWithinSegment(caps[0], tail);
        var k' := |caps[0]|;
        assert path[k'..] == tail;
        assert Accepts(ts[1..], tail, caps[1..]) by {
          assert forall i :: 0 <= i < |caps[1..]| ==> caps[1..][i] == caps[i + 1];
        }
        var k := TryCaptureChoice(ts[1..], path, SegmentEnd(path, 0));
        var chosen := Match(ts, path).value;
        assert chosen == [path[..k]] + Match(ts[1..], path[k..]).value;
        if k' > k {
          MatchComplete(ts[1..], tail, caps[1..]);
          assert false;
        } else if k' == k {
          assert caps[0] == path[..k];
          MatchPrefersLongest(ts[1..], tail, caps[1..]);
          assert chosen[1..] == Match(ts[1..], tail).value;
        }
    }
  }

  /** With no captures, the matcher spells its literal text. */
  lemma {:induction false} FillLiteral(ps: seq<Piece>)
    requires Names(ps) == []
    ensures CaptureCount(Tokens(ps)) == 0 && Fill(Tokens(ps), []) == Render(ps)
  {
    NamesMatchCaptures(ps);
    if ps != [] {
      assert Names(ps[1..]) == [];
      FillLiteral(ps[1..]);
      assert Tokens(ps)[1..] == Tokens(ps[1..]);
    }
  }

  /** A pattern without placeholders matches exactly the identical path, with no captures. */
  lemma LiteralPatternMatchesItself(pattern: string, path: string)
    requires SafePattern(pattern) && Names(Scan(pattern)) == []
    ensures Match(Tokens(Scan(pattern)), path).Some? <==> path == pattern
    ensures Match(Tokens(Scan(pattern)), path).Some? ==> Match(Tokens(Scan(pattern)), path).value == []
  {
    var ts := Tokens(Scan(pattern));
    FillLiteral(Scan(pattern));
    RenderScan(pattern);
    MatchSound(ts, path);
    if path == pattern {
      MatchComplete(ts, path, []);
    }
  }

  /** The greedy finder turns `{a}{b}` into the single placeholder `a}{b`. */
  lemma AdjacentPlaceholdersMerge()
    ensures Scan("{a}{b}") == [Placeholder("a}{b")]
  {
    var p := "{a}{b}";
    assert SegmentEnd(p, 1) == 6;
    assert LastClose(p, 6) == 5;
    assert p[1..5] == "a}{b" && p[6..] == [];
  }
}
