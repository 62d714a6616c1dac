/**
 The translation of ECMA-262 patterns for Python: every anchor `$` becomes `\Z`, and a `$` that is
 escaped or inside a character class stays a literal.
 */
module EcmaPattern {
  import opened Bytes

  /** A pattern split where the two regular-expression dialects agree on the pieces. */
  datatype Token =
    | Escape(pair: string)
    | Open(bracket: string)
    | Member(member: char)
    | Close
    | Anchor
    | Plain(plain: char)

  function Text(t: Token): string {
    match t
    case Escape(pair) => pair
    case Open(bracket) => bracket
    case Member(c) => [c]
    case Close => "]"
    case Anchor => "$"
    case Plain(c) => [c]
  }

  /** The length of `[`, with a negating `^` and a leading literal `]` when they follow. */
  function OpenLength(p: string): (n: nat)
    requires p != "" && p[0] == '['
    ensures 1 <= n <= |p| && n <= 3
  {
    var negated := if |p| > 1 && p[1] == '^' then 2 else 1;
    if |p| > negated && p[negated] == ']' then negated + 1 else negated
  }

  function First(p: string, inClass: bool): (t: Token)
    requires p != ""
    ensures 1 <= |Text(t)| <= |p| && p[..|Text(t)|] == Text(t)
  {
    if p[0] == '\\' then Escape(if |p| >= 2 then p[..2] else p[..1])
    else if inClass then if p[0] == ']' then Close else Member(p[0])
    else if p[0] == '[' then Open(p[..OpenLength(p)])
    else if p[0] == '$' then Anchor
    else Plain(p[0])
  }

  /** Whether the text after a token is inside a character class. */
  function Inside(t: Token, inClass: bool): bool {
    t.Open? || (inClass && !t.Close?)
  }

  function Tokens(p: string, inClass: bool): seq<Token> {
    if p == "" then []
    else
      var t := First(p, inClass);
      [t] + Tokens(p[|Text(t)|..], Inside(t, inClass))
  }

  function Join(ts: seq<Token>): string {
    if ts == [] then "" else Text(ts[0]) + Join(ts[1..])
  }

  function Rewrite(t: Token): Token {
    if t.Anchor? then Escape("\\Z") else t
  }

  function RewriteAll(ts: seq<Token>): (r: seq<Token>)
    ensures |r| == |ts|
  {
    seq(|ts|, i requires 0 <= i < |ts| => Rewrite(ts[i]))
  }

  function Translated(p: string): string {
    Join(RewriteAll(Tokens(p, false)))
  }

  /** Splitting a pattern loses nothing. */
  lemma {:induction false} TokensJoin(p: string, inClass: bool)
    ensures Join(Tokens(p, inClass)) == p
  {
    if p != "" {
      var t := First(p, inClass);
      TokensJoin(p[|Text(t)|..], Inside(t, inClass));
      assert Tokens(p, inClass)[1..] == Tokens(p[|Text(t)|..], Inside(t, inClass));
      assert p == p[..|Text(t)|] + p[|Text(t)|..];
    }
  }

  lemma RewriteHead(t: Token, ts: seq<Token>)
    ensures RewriteAll([t] + ts) == [Rewrite(t)] + RewriteAll(ts)
    ensures Join([t] + ts) == Text(t) + Join(ts)
  {
    assert ([t] + ts)[1..] == ts;
  }

  /** The rewritten pattern splits into the rewritten tokens: no token swallows or breaks a neighbour. */
  lemma {:induction false} Resplit(p: string, inClass: bool)
    ensures Tokens(Join(RewriteAll(Tokens(p, inClass))), inClass) == RewriteAll(Tokens(p, inClass))
    decreases |p|
  {
    if p != "" {
      hide Join, RewriteAll;
      var t := First(p, inClass);
      var rest, inside := p[|Text(t)|..], Inside(t, inClass);
      var ts := Tokens(rest, inside);
      Resplit(rest, inside);
      RewriteHead(t, ts);
      RewriteHead(Rewrite(t), RewriteAll(ts));
      var tail := Join(RewriteAll(ts));
      FollowingText(rest, inside);
      FirstAgain(p, inClass, tail);
      assert (Text(Rewrite(t)) + tail)[|Text(Rewrite(t))|..] == tail;
    } else {
      assert RewriteAll([]) == [];
      assert Join([]) == "";
    }
  }

  /** Translation keeps a text empty or nonempty, and its first character unless that is an anchor. */
  lemma FollowingText(p: string, inClass: bool)
    ensures var tail := Join(RewriteAll(Tokens(p, inClass)));
            && (p == "" <==> tail == "")
            && (p != "" ==> tail[0] == if First(p, inClass).Anchor? then '\\' else p[0])
  {
    if p == "" {
      assert RewriteAll([]) == [];
    } else {
      var t := First(p, inClass);
      RewriteHead(t, Tokens(p[|Text(t)|..], Inside(t, inClass)));
      RewriteHead(Rewrite(t), RewriteAll(Tokens(p[|Text(t)|..], Inside(t, inClass))));
    }
  }

  /** The first token of the rewritten text is the rewritten first token. */
  lemma FirstAgain(p: string, inClass: bool, tail: string)
    requires p != ""
    requires var rest := p[|Text(First(p, inClass))|..];
             && (rest == "" <==> tail == "")
             && (rest != "" ==>
                   tail[0] == if First(rest, Inside(First(p, inClass), inClass)).Anchor? then '\\' else rest[0])
    ensures First(Text(Rewrite(First(p, inClass))) + tail, inClass) == Rewrite(First(p, inClass))
  {
    var t := First(p, inClass);
    var q := Text(Rewrite(t)) + tail;
    if t.Escape? || t.Anchor? {
      assert q[..|Text(Rewrite(t))|] == Text(Rewrite(t));
    } else if t.Open? {
      OpenAgain(p, tail);
    }
  }

  lemma OpenAgain(p: string, tail: string)
    requires p != "" && p[0] == '['
    requires var rest := p[OpenLength(p)..];
             (rest == "" <==> tail == "") && (rest != "" ==> tail[0] == rest[0])
    ensures var n, q := OpenLength(p), p[..OpenLength(p)] + tail; q[0] == '[' && OpenLength(q) == n && q[..n] == p[..n]
  {
    var n := OpenLength(p);
    var q := p[..n] + tail;
    if n < |p| {
      assert q[n] == p[n..][0] == p[n];
    }
  }

  // ------------------------------------------------------- by single characters

  /** Where a scan that reads one character at a time is. */
  datatype Mode = Outside | Escaped | Opened | Negated | InClass | EscapedInClass

  function After(m: Mode, c: char): Mode {
    match m
    case Outside => if c == '\\' then Escaped else if c == '[' then Opened else Outside
    case Escaped => Outside
    case Opened => if c == '^' then Negated else if c == '\\' then EscapedInClass else InClass
    case Negated => if c == '\\' then EscapedInClass else InClass
    case InClass => if c == '\\' then EscapedInClass else if c == ']' then Outside else InClass
    case EscapedInClass => InClass
  }

  /** A `$` that is neither escaped nor in a class becomes `\Z`; every other character stays. */
  function ByCharacter(p: string, m: Mode): string {
    if p == "" then "" else (if m.Outside? && p[0] == '$' then "\\Z" else [p[0]]) + ByCharacter(p[1..], After(m, p[0]))
  }

  /** How many characters the first token has, and where a scan by characters is behind it. */
  lemma FirstByCharacter(p: string, inClass: bool)
    requires p != ""
    ensures var (t, m) := (First(p, inClass), if inClass then InClass else Outside);
            var behind := if Inside(t, inClass) then InClass else Outside;
            ByCharacter(p, m) == Text(Rewrite(t)) + ByCharacter(p[|Text(t)|..], behind)
  {
    hide ByCharacter;
    var t, m := First(p, inClass), if inClass then InClass else Outside;
    if |Text(t)| == 2 {
      OneCharacter(p, m);
      OneCharacter(p[1..], After(m, p[0]));
      assert p[1..][1..] == p[2..] && p[..2] == [p[0]] + [p[1]];
      Assoc([p[0]], [p[1]], ByCharacter(p[2..], After(After(m, p[0]), p[1])));
      if t.Open? && p[1] == '^' {
        OpenedIsIn(p[2..], Negated);
      }
    } else if |Text(t)| == 3 {
      OneCharacter(p, m);
      OneCharacter(p[1..], Opened);
      OneCharacter(p[2..], Negated);
      assert p[1..][1..] == p[2..] && p[2..][1..] == p[3..] && p[..3] == [p[0]] + [p[1]] + [p[2]];
      Assoc([p[0]], [p[1]], [p[2]] + ByCharacter(p[3..], InClass));
      Assoc([p[0]] + [p[1]], [p[2]], ByCharacter(p[3..], InClass));
    } else {
      OneCharacter(p, m);
      if t.Open? {
        OpenedIsIn(p[1..], Opened);
      } else if |p| == 1 {
        NothingLeft(After(m, p[0]));
        NothingLeft(if Inside(t, inClass) then InClass else Outside);
      }
    }
  }

  /** Behind the opening of a class, anything but `]` or a leading `^` is read as inside it. */
  lemma OpenedIsIn(p: string, m: Mode)
    requires m.Opened? || m.Negated?
    requires p != "" ==> p[0] != ']' && (m.Opened? ==> p[0] != '^')
    ensures ByCharacter(p, m) == ByCharacter(p, InClass)
  {
  }

  lemma NothingLeft(m: Mode)
    ensures ByCharacter("", m) == ""
  {
  }

  lemma OneCharacter(p: string, m: Mode)
    requires p != ""
    ensures ByCharacter(p, m)
         == (if m.Outside? && p[0] == '$' then "\\Z" else [p[0]]) + ByCharacter(p[1..], After(m, p[0]))
  {
  }

  lemma {:induction false} TokensByCharacter(p: string, inClass: bool)
    ensures Join(RewriteAll(Tokens(p, inClass))) == ByCharacter(p, if inClass then InClass else Outside)
    decreases |p|
  {
    hide First, Text;
    if p == "" {
      assert RewriteAll([]) == [] && Join([]) == "";
    } else {
      var t := First(p, inClass);
      var rest := p[|Text(t)|..];
      TokensByCharacter(rest, Inside(t, inClass));
      FirstByCharacter(p, inClass);
      RewriteHead(t, Tokens(rest, Inside(t, inClass)));
      RewriteHead(Rewrite(t), RewriteAll(Tokens(rest, Inside(t, inClass))));
    }
  }

  /** The translation is the one that reads single characters. */
  lemma TranslatedByCharacter(p: string)
    ensures Translated(p) == ByCharacter(p, Outside)
  {
    TokensByCharacter(p, false);
  }

  // ------------------------------------------------------------- main results

  /**
   The result, split again, is the original split with each active anchor replaced by `\Z`: all
   other tokens are kept in order, no active `$` is left, and translating again changes nothing.
   */
  lemma TranslatedTokens(p: string)
    ensures Join(Tokens(p, false)) == p
    ensures Tokens(Translated(p), false) == RewriteAll(Tokens(p, false))
    ensures Anchor !in Tokens(Translated(p), false)
    ensures Translated(Translated(p)) == Translated(p)
  {
    TokensJoin(p, false);
    Resplit(p, false);
    var ts := RewriteAll(Tokens(p, false));
    assert RewriteAll(ts) == ts;
  }

  /** A pattern is left alone exactly when it has no active anchor. */
  lemma UnchangedExactly(p: string)
    ensures Translated(p) == p <==> Anchor !in Tokens(p, false)
  {
    TranslatedTokens(p);
    var ts := Tokens(p, false);
    if Anchor !in ts {
      assert RewriteAll(ts) == ts;
    }
  }

  lemma {:induction false} JoinSnoc(ts: seq<Token>, t: Token)
    ensures Join(ts + [t]) == Join(ts) + Text(t)
  {
    if ts == [] {
      assert [] + [t] == [t] && Join([t]) == Text(t) + Join([]);
    } else {
      assert (ts + [t])[1..] == ts[1..] + [t];
      JoinSnoc(ts[1..], t);
    }
  }

  /** What one turn of the scanner appends, and where it leaves the index and the class flag. */
  method ScanPiece(pattern: string, start: nat, wasInClass: bool) returns (piece: string, index: nat, inClass: bool)
    requires start < |pattern|
    ensures var t := First(pattern[start..], wasInClass);
            index == start + |Text(t)| && piece == Text(Rewrite(t)) && inClass == Inside(t, wasInClass)
  {
    index, inClass := start, wasInClass;
    var c := pattern[index];
    assert forall k | 0 <= k < |pattern| - start :: pattern[start..][k] == pattern[start + k];
    if c == '\\' {
      index := if index + 2 <= |pattern| then index + 2 else |pattern|;
      piece := pattern[start..index];
    } else if inClass {
      piece := [c];
      if c == ']' {
        inClass := false;
      }
      index := index + 1;
    } else if c == '[' {
      inClass := true;
      index := index + 1;
      if index < |pattern| && pattern[index] == '^' {
        index := index + 1;
      }
      if index < |pattern| && pattern[index] == ']' {
        index := index + 1;
      }
      assert index - start == OpenLength(pattern[start..]);
      piece := pattern[start..index];
    } else if c == '$' {
      piece := "\\Z";
      index := index + 1;
    } else {
      piece := [c];
      index := index + 1;
    }
  }

  /** `_ecma_pattern`: the scanner with its index, its class flag and its list of pieces. */
  method EcmaPatternOf(pattern: string) returns (translated: string)
    ensures translated == Translated(pattern)
  {
    var index, inClass := 0, false;
    translated := "";
    ghost var done: seq<Token> := [];
    assert pattern[0..] == pattern;
    while index < |pattern|
      invariant 0 <= index <= |pattern|
      invariant Tokens(pattern, false) == done + Tokens(pattern[index..], inClass)
      invariant translated == Join(RewriteAll(done))
      decreases |pattern| - index
    {
      hide Tokens, Join, RewriteAll;
      ghost var rest := pattern[index..];
      ghost var t := First(rest, inClass);
      var piece, next, inside := ScanPiece(pattern, index, inClass);
      assert pattern[next..] == rest[|Text(t)|..];
      ScannedOne(done, t, rest, inClass, pattern[next..]);
      translated := translated + piece;
      index, inClass := next, inside;
      done := done + [t];
    }
    assert Tokens("", inClass) == [] && pattern[index..] == "" && done + [] == done;
  }

  /** One turn of the loop consumes one token and appends its rewriting. */
  lemma ScannedOne(done: seq<Token>, t: Token, rest: string, inClass: bool, after: string)
    requires rest != "" && t == First(rest, inClass) && after == rest[|Text(t)|..]
    ensures done + Tokens(rest, inClass) == done + [t] + Tokens(after, Inside(t, inClass))
    ensures Join(RewriteAll(done + [t])) == Join(RewriteAll(done)) + Text(Rewrite(t))
  {
    RewriteSnoc(done, t);
    JoinSnoc(RewriteAll(done), Rewrite(t));
    assert Tokens(rest, inClass) == [t] + Tokens(after, Inside(t, inClass));
    hide Tokens, First, RewriteAll;
    Assoc(done, [t], Tokens(after, Inside(t, inClass)));
  }

  lemma RewriteSnoc(ts: seq<Token>, t: Token)
    ensures RewriteAll(ts + [t]) == RewriteAll(ts) + [Rewrite(t)]
  {
  }
}
