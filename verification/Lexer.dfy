/** The init-script lexer of filesystem/OS/init/lexer.c. A text is a character sequence followed
    by one zero character, which is all the code may read behind it. */
module Lexer {
  import opened Arithmetic

  const NUL: char := '\0'
  const QUOTE: char := '\"'

  datatype Symbol = Var | Exec | WExec | Str(str: string) | Iden(iden: string) | Endl

  // ---- Characters

  function At(s: string, k: nat): char { if k < |s| then s[k] else NUL }

  predicate IsEndLine(c: char) { c == '\n' || c == NUL }

  predicate IsBlank(c: char) { c == ' ' || c == '\n' || c == '\t' || c == NUL }

  predicate IsLetterOrNumber(c: char) { '0' <= c <= '9' || 'a' <= c <= 'z' || 'A' <= c <= 'Z' }

  /** From `k` on, the first line end; at the latest the terminating zero. */
  function LineEnd(s: string, k: nat): (r: nat)
    requires k <= |s|
    ensures k <= r <= |s| && IsEndLine(At(s, r)) && forall i :: k <= i < r ==> !IsEndLine(s[i])
    decreases |s| - k
  {
    if IsEndLine(At(s, k)) then k else LineEnd(s, k + 1)
  }

  /** From `k` on, the first quote, zero or end. */
  function StringEnd(s: string, k: nat): (r: nat)
    ensures k <= r && (r <= |s| || r == k)
    ensures r < |s| ==> s[r] == QUOTE || s[r] == NUL
    ensures forall i :: k <= i < r && i < |s| ==> s[i] != QUOTE && s[i] != NUL
    decreases |s| - k
  {
    if k >= |s| || s[k] == NUL || s[k] == QUOTE then k else StringEnd(s, k + 1)
  }

  function WordEnd(s: string, k: nat): (r: nat)
    requires k <= |s|
    ensures k <= r <= |s| && (r < |s| ==> !IsLetterOrNumber(s[r]))
    ensures forall i :: k <= i < r ==> IsLetterOrNumber(s[i])
    decreases |s| - k
  {
    if k == |s| || !IsLetterOrNumber(s[k]) then k else WordEnd(s, k + 1)
  }

  /** strncmp(s, keyword, |keyword|) == 0, followed by a blank. */
  predicate IsKeyword(s: string, keyword: string) {
    |keyword| <= |s| && s[..|keyword|] == keyword && IsBlank(At(s, |keyword|))
  }

  // ---- One iteration

  /** What one iteration appends, how far it moves, and whether it found an open string. */
  datatype Scan = Scan(tokens: seq<Symbol>, length: nat, bad: bool)

  /** The end of the loop body: keywords, identifiers, anything else. */
  function ScanWord(s: string): (r: Scan)
    ensures r.length > 0
  {
    if IsKeyword(s, "VAR") then Scan([Var], 3, false)
    else if IsKeyword(s, "EXEC") then Scan([Exec], 4, false)
    else if IsKeyword(s, "WEXEC") then Scan([WExec], 5, false)
    else if IsLetterOrNumber(At(s, 0)) then Scan([Iden(s[..WordEnd(s, 0)])], WordEnd(s, 0), false)
    else Scan([], 1, false)
  }

  /** strncpy of a string body: it stops at a zero, which can only be the first character. */
  function Body(s: string): string { if s != "" && s[0] == NUL then "" else s }

  /** A string starts at a quote; scanning goes on at its closing quote, or at the last character
      looked at when there is none. */
  function ScanString(s: string): (r: Scan)
    requires s != ""
    ensures r.length > 0
  {
    var q := StringEnd(s, 2);
    if q < |s| && s[q] == QUOTE then
      var rest := ScanWord(s[q..]);
      Scan([Str(Body(s[1..q]))] + rest.tokens, q + rest.length, rest.bad)
    else
      var rest := ScanWord(s[q - 1..]);
      Scan(rest.tokens, q - 1 + rest.length, true)
  }

  function ScanOne(s: string): (r: Scan)
    requires s != "" && s[0] != NUL
    ensures r.length > 0
  {
    if s[0] == ' ' then Scan([], 1, false)
    else if s[0] == '#' then Scan([], LineEnd(s, 0), false)
    else if s[0] == '\n' then Scan([Endl], 1, false)
    else if s[0] == QUOTE then ScanString(s)
    else ScanWord(s)
  }

  /** All tokens of the text, and whether every string was closed. */
  function Tokens(s: string): (seq<Symbol>, bool)
    decreases |s|
  {
    if s == "" || s[0] == NUL then ([], true)
    else
      var one := ScanOne(s);
      var (rest, ok) := Tokens(s[Min(one.length, |s|)..]);
      (one.tokens + rest, !one.bad && ok)
  }

  // ---- The method

  method Lex(s: string) returns (tokens: seq<Symbol>, valid: bool)
    ensures s == "" ==> tokens == [] && !valid
    ensures s != "" ==> tokens == Tokens(s).0 + [Endl] && valid == Tokens(s).1
  {
    hide Tokens, ScanOne, Rest, Continued;
    tokens, valid := [], false;
    if s == "" { return; }
    var err := false;
    var start: nat := 0;
    NoneCollected(s);
    while start < |s| && s[start] != NUL
      invariant Continued(tokens, err, s, start)
      decreases |s| - start
    {
      var emitted, length, bad := LexOne(s[start..]);
      TokensStep(s, start, tokens, err);
      tokens := tokens + emitted;
      err := err || bad;
      start := start + length;
    }
    NoneLeft(tokens, err, s, start);
    tokens := tokens + [Endl];
    valid := !err;
  }

  function Rest(s: string, start: nat): string { s[Min(start, |s|)..] }

  /** What is collected before `start` completes to what the whole text gives. */
  ghost predicate Continued(tokens: seq<Symbol>, err: bool, s: string, start: nat) {
    && tokens + Tokens(Rest(s, start)).0 == Tokens(s).0
    && (!err && Tokens(Rest(s, start)).1) == Tokens(s).1
  }

  lemma NoneCollected(s: string)
    ensures Continued([], false, s, 0)
  {
    assert Rest(s, 0) == s;
  }

  lemma NoneLeft(tokens: seq<Symbol>, err: bool, s: string, start: nat)
    requires Continued(tokens, err, s, start) && At(s, start) == NUL
    ensures tokens == Tokens(s).0 && err == !Tokens(s).1
  {
  }

  lemma TokensStep(s: string, start: nat, tokens: seq<Symbol>, err: bool)
    requires start < |s| && s[start] != NUL && Continued(tokens, err, s, start)
    ensures var one := ScanOne(s[start..]);
            Continued(tokens + one.tokens, err || one.bad, s, start + one.length)
  {
    hide ScanOne;
    var one := ScanOne(s[start..]);
    assert s[start..][Min(one.length, |s| - start)..] == Rest(s, start + one.length);
    var rest := Tokens(Rest(s, start + one.length)).0;
    assert tokens + (one.tokens + rest) == (tokens + one.tokens) + rest;
  }

  /** The loop body, on the text from the scan position on. */
  method LexOne(s: string) returns (emitted: seq<Symbol>, length: nat, bad: bool)
    requires s != "" && s[0] != NUL
    ensures Scan(emitted, length, bad) == ScanOne(s)
  {
    hide ScanString, ScanWord;
    emitted, length, bad := [], 0, false;
    if s[0] == ' ' { return emitted, 1, bad; }
    if s[0] == '#' { length := SkipComment(s); return; }
    if s[0] == '\n' { return [Endl], 1, bad; }
    if s[0] == QUOTE {
      emitted, length, bad := LexString(s);
    } else {
      emitted, length := LexWord(s);
    }
  }

  method SkipComment(s: string) returns (length: nat)
    ensures length == LineEnd(s, 0)
  {
    length := 0;
    while !IsEndLine(At(s, length))
      invariant length <= |s| && forall k :: 0 <= k < length ==> !IsEndLine(s[k])
      decreases |s| - length
    {
      length := length + 1;
    }
    LineEndIs(s, length);
  }

  /** A string, and what the same iteration goes on to read at its closing quote. */
  method LexString(s: string) returns (emitted: seq<Symbol>, length: nat, bad: bool)
    requires s != ""
    ensures Scan(emitted, length, bad) == ScanString(s)
  {
    hide ScanWord, StringEnd;
    var found, end := FindQuote(s);
    bad := !found;
    length := if found then end else end - 1;
    var words, moved := LexWord(s[length..]);
    emitted := (if found then [Str(Body(s[1..end]))] else []) + words;
    length := length + moved;
  }

  /** Looks for the closing quote of the string that opens the text; the code's `str_end`. */
  method FindQuote(s: string) returns (found: bool, end: nat)
    requires s != ""
    ensures end == StringEnd(s, 2) && found == (end < |s| && s[end] == QUOTE)
  {
    end, found := 2, false;
    while end < |s| && s[end] != NUL
      invariant 2 <= end && (end <= |s| || end == 2)
      invariant forall k :: 2 <= k < end && k < |s| ==> s[k] != QUOTE && s[k] != NUL
      decreases |s| - end
    {
      if s[end] == QUOTE { found := true; break; }
      end := end + 1;
    }
    StringEndIs(s, end);
  }

  lemma LineEndIs(s: string, r: nat)
    requires r <= |s| && IsEndLine(At(s, r)) && forall i :: 0 <= i < r ==> !IsEndLine(s[i])
    ensures LineEnd(s, 0) == r
  {
  }

  lemma StringEndIs(s: string, r: nat)
    requires 2 <= r && (r <= |s| || r == 2) && (r < |s| ==> s[r] == QUOTE || s[r] == NUL)
    requires forall i :: 2 <= i < r && i < |s| ==> s[i] != QUOTE && s[i] != NUL
    ensures StringEnd(s, 2) == r
  {
  }

  method LexWord(s: string) returns (tokens: seq<Symbol>, length: nat)
    ensures Scan(tokens, length, false) == ScanWord(s)
  {
    if IsKeyword(s, "VAR") { return [Var], 3; }
    if IsKeyword(s, "EXEC") { return [Exec], 4; }
    if IsKeyword(s, "WEXEC") { return [WExec], 5; }
    if IsLetterOrNumber(At(s, 0)) {
      var end := 0;
      while end < |s| && IsLetterOrNumber(s[end])
        invariant 0 <= end <= |s| && WordEnd(s, 0) == WordEnd(s, end)
      {
        end := end + 1;
      }
      return [Iden(s[..end])], end;
    }
    return [], 1;
  }

  // ---- Writing a script and reading it back

  /** What a script is written with. */
  datatype Piece = Word(symbol: Symbol) | Space | LineBreak | Comment(text: string)

  function Spelled(p: Piece): string {
    match p
    case Space => " "
    case LineBreak => "\n"
    case Comment(text) => "#" + text
    case Word(Var) => "VAR"
    case Word(Exec) => "EXEC"
    case Word(WExec) => "WEXEC"
    case Word(Str(str)) => [QUOTE] + str + [QUOTE]
    case Word(Iden(iden)) => iden
    case Word(Endl) => "\n"
  }

  function Rendered(script: seq<Piece>): string {
    if script == [] then "" else Spelled(script[0]) + Rendered(script[1..])
  }

  function Meant(p: Piece): seq<Symbol> {
    match p
    case Word(symbol) => [symbol]
    case LineBreak => [Endl]
    case _ => []
  }

  function Meaning(script: seq<Piece>): seq<Symbol> {
    if script == [] then [] else Meant(script[0]) + Meaning(script[1..])
  }

  const DIGITS: set<char> := {'0', '1', '2', '3', '4', '5', '6', '7', '8', '9'}
  const SMALL: set<char> := {'a', 'b', 'c', 'd', 'e', 'f', 'g', 'h', 'i', 'j', 'k', 'l', 'm',
                             'n', 'o', 'p', 'q', 'r', 's', 't', 'u', 'v', 'w', 'x', 'y', 'z'}
  const LARGE: set<char> := {'A', 'B', 'C', 'D', 'E', 'F', 'G', 'H', 'I', 'J', 'K', 'L', 'M',
                             'N', 'O', 'P', 'Q', 'R', 'S', 'T', 'U', 'V', 'W', 'X', 'Y', 'Z'}

  /** The characters an identifier may consist of. */
  predicate InName(c: char) { c in DIGITS || c in SMALL || c in LARGE }

  /** The characters behind a keyword, and those that end a comment. */
  const BLANKS: set<char> := {' ', '\n', '\t', NUL}
  const LINE_ENDS: set<char> := {'\n', NUL}

  lemma NameCharacters(c: char)
    ensures IsLetterOrNumber(c) <==> InName(c)
  {
  }

  predicate Alphanumeric(s: string) { forall c :: c in s ==> InName(c) }

  lemma AlphanumericMeans(s: string)
    ensures Alphanumeric(s) <==> forall c :: c in s ==> IsLetterOrNumber(c)
  {
    hide IsLetterOrNumber, InName;
    forall c | c in s ensures IsLetterOrNumber(c) <==> InName(c) { NameCharacters(c); }
  }

  const KEYWORDS: set<string> := {"VAR", "EXEC", "WEXEC"}

  /** When a piece may be followed by the character `next`; NUL is the end of the text. */
  predicate Fits(p: Piece, next: char) {
    match p
    case Space => true
    case LineBreak => true
    case Comment(text) => next in LINE_ENDS && forall c :: c in text ==> c !in LINE_ENDS
    case Word(Str(str)) =>
      str != "" && str[0] != NUL && forall i :: 1 <= i < |str| ==> str[i] != QUOTE && str[i] != NUL
    case Word(Iden(iden)) =>
      && iden != "" && Alphanumeric(iden) && !InName(next)
      && (iden in KEYWORDS ==> next !in BLANKS)
    case Word(Endl) => true
    case Word(_) => next in BLANKS
  }

  /** Every piece fits what follows it; `tail` is what follows the script. */
  predicate WellFormed(script: seq<Piece>, tail: string) {
    script != [] ==>
      Fits(script[0], At(Rendered(script[1..]) + tail, 0)) && WellFormed(script[1..], tail)
  }

  /** Behind a rendered script, lexing goes on with the rest of the text. */
  lemma {:induction false} ReadsOn(script: seq<Piece>, tail: string)
    requires WellFormed(script, tail)
    ensures Tokens(Rendered(script) + tail) == (Meaning(script) + Tokens(tail).0, Tokens(tail).1)
  {
    hide ScanOne, Fits, Meant, Spelled;
    if script == [] {
      assert Rendered(script) + tail == tail && [] + Tokens(tail).0 == Tokens(tail).0;
    } else {
      var p, rest := script[0], Rendered(script[1..]) + tail;
      ScanPiece(p, rest);
      SpelledStarts(p, rest);
      assert Rendered(script) + tail == Spelled(p) + rest;
      assert (Spelled(p) + rest)[|Spelled(p)|..] == rest;
      ReadsOn(script[1..], tail);
      assert Meant(p) + (Meaning(script[1..]) + Tokens(tail).0) == Meaning(script) + Tokens(tail).0;
    }
  }

  /** A rendered script is read back as exactly its tokens, and as valid. */
  lemma RenderLexRoundTrip(script: seq<Piece>)
    requires WellFormed(script, "")
    ensures Tokens(Rendered(script)) == (Meaning(script), true)
  {
    ReadsOn(script, "");
    assert Rendered(script) + "" == Rendered(script) && Meaning(script) + [] == Meaning(script);
  }

  /** A string that is not closed makes the text invalid; what was read before it is kept. */
  lemma UnclosedStringIsInvalid(script: seq<Piece>, open: string)
    requires WellFormed(script, [QUOTE] + open) && forall i :: 1 <= i < |open| ==> open[i] != QUOTE
    ensures var (tokens, valid) := Tokens(Rendered(script) + ([QUOTE] + open));
            !valid && Meaning(script) <= tokens
  {
    hide Tokens, WellFormed, Rendered, Meaning;
    ReadsOn(script, [QUOTE] + open);
    OpenString(open);
  }

  lemma OpenString(open: string)
    requires forall i :: 1 <= i < |open| ==> open[i] != QUOTE
    ensures !Tokens([QUOTE] + open).1
  {
    hide StringEnd, ScanWord, Tokens;
    var s := [QUOTE] + open;
    var q := StringEnd(s, 2);
    if q < |s| { assert s[q] == open[q - 1]; }
    BadIsInvalid(s);
  }

  lemma BadIsInvalid(s: string)
    requires s != "" && s[0] != NUL && ScanOne(s).bad
    ensures !Tokens(s).1
  {
    hide ScanOne;
  }

  lemma SpelledStarts(p: Piece, rest: string)
    requires Fits(p, At(rest, 0))
    ensures Spelled(p) != "" && Spelled(p)[0] != NUL
  {
    if p.Word? && p.symbol.Iden? {
      assert p.symbol.iden[0] in p.symbol.iden;
      NameCharacters(p.symbol.iden[0]);
    }
  }

  /** One iteration reads one piece, whatever follows it. */
  lemma ScanPiece(p: Piece, rest: string)
    requires Fits(p, At(rest, 0))
    ensures var s := Spelled(p) + rest;
            s != "" && s[0] != NUL && ScanOne(s) == Scan(Meant(p), |Spelled(p)|, false)
  {
    hide ScanString, ScanWord, InName;
    SpelledStarts(p, rest);
    match p
    case Space =>
    case LineBreak =>
    case Comment(text) => ScanComment(text, rest);
    case Word(Endl) =>
    case Word(Str(str)) => ScanStr(str, rest);
    case Word(Iden(iden)) =>
      assert (iden + rest)[0] == iden[0] && iden[0] in iden;
      NameCharacters(iden[0]);
      ScanIden(iden, rest);
    case Word(Var) => KeywordNeedsBlank(rest);
    case Word(Exec) => KeywordNeedsBlank(rest);
    case Word(WExec) => KeywordNeedsBlank(rest);
  }

  lemma ScanComment(text: string, rest: string)
    requires At(rest, 0) in LINE_ENDS && forall c :: c in text ==> c !in LINE_ENDS
    ensures LineEnd("#" + text + rest, 0) == 1 + |text|
  {
    hide LineEnd;
    var front := "#" + text;
    forall k | 0 <= k < |front| ensures !IsEndLine((front + rest)[k]) {
      assert k > 0 ==> front[k] == text[k - 1];
    }
    assert At(front + rest, |front|) == At(rest, 0);
    LineEndIs(front + rest, |front|);
  }

  lemma ScanStr(str: string, rest: string)
    requires str != "" && str[0] != NUL
    requires forall i :: 1 <= i < |str| ==> str[i] != QUOTE && str[i] != NUL
    ensures ScanString([QUOTE] + str + [QUOTE] + rest) == Scan([Str(str)], |str| + 2, false)
  {
    hide StringEnd;
    var s := [QUOTE] + str + [QUOTE] + rest;
    forall i | 2 <= i < |str| + 1 ensures s[i] != QUOTE && s[i] != NUL {
      assert s[i] == str[i - 1];
    }
    StringEndIs(s, |str| + 1);
    assert s[1..|str| + 1] == str;
    var q := s[|str| + 1..];
    assert q[0] == QUOTE;
    assert ScanWord(q) == Scan([], 1, false);
  }

  lemma ScanIden(iden: string, rest: string)
    requires iden != "" && Alphanumeric(iden) && !InName(At(rest, 0))
    requires iden in KEYWORDS ==> At(rest, 0) !in BLANKS
    ensures ScanWord(iden + rest) == Scan([Iden(iden)], |iden|, false)
  {
    hide IsLetterOrNumber, InName;
    var s := iden + rest;
    AlphanumericMeans(iden);
    NameCharacters(At(rest, 0));
    KeywordNames();
    KeywordIsWhole(iden, rest, "VAR");
    KeywordIsWhole(iden, rest, "EXEC");
    KeywordIsWhole(iden, rest, "WEXEC");
    assert s[0] == iden[0] && iden[0] in iden;
    forall i | 0 <= i < |iden| ensures IsLetterOrNumber(s[i]) {
      assert s[i] == iden[i] && iden[i] in iden;
    }
    var w := WordEnd(s, 0);
    assert At(s, |iden|) == At(rest, 0);
    assert w == |iden|;
    assert s[..w] == iden;
  }

  lemma KeywordNames()
    ensures Alphanumeric("VAR") && Alphanumeric("EXEC") && Alphanumeric("WEXEC")
  {
    AlphanumericMeans("VAR");
    AlphanumericMeans("EXEC");
    AlphanumericMeans("WEXEC");
  }

  lemma BlankIsNoName()
    ensures forall c :: IsBlank(c) <==> c in BLANKS
    ensures forall c :: c in BLANKS ==> !IsLetterOrNumber(c)
  {
  }

  /** A word is taken for a keyword only when it is all of it. */
  lemma KeywordIsWhole(iden: string, rest: string, keyword: string)
    requires Alphanumeric(iden) && Alphanumeric(keyword) && !InName(At(rest, 0))
    ensures IsKeyword(iden + rest, keyword) == (iden == keyword && At(rest, 0) in BLANKS)
  {
    hide InName, IsLetterOrNumber;
    BlankIsNoName();
    AlphanumericMeans(keyword);
    AlphanumericMeans(iden);
    NameCharacters(At(rest, 0));
    var s := iden + rest;
    assert At(s, |iden|) == At(rest, 0);
    if |iden| < |keyword| {
      assert keyword[|iden|] in keyword;
    } else if |iden| > |keyword| {
      assert iden[|keyword|] in iden && At(s, |keyword|) == iden[|keyword|];
    } else if |iden| == |keyword| {
      assert s[..|keyword|] == iden;
    }
  }

  /** A keyword is read as one exactly when a blank or the end of the text follows it. */
  lemma KeywordNeedsBlank(rest: string)
    ensures ScanWord("VAR" + rest) == Scan([Var], 3, false) <==> At(rest, 0) in BLANKS
    ensures ScanWord("EXEC" + rest) == Scan([Exec], 4, false) <==> At(rest, 0) in BLANKS
    ensures ScanWord("WEXEC" + rest) == Scan([WExec], 5, false) <==> At(rest, 0) in BLANKS
  {
    hide WordEnd;
    assert ("VAR" + rest)[..3] == "VAR" && At("VAR" + rest, 3) == At(rest, 0);
    assert ("EXEC" + rest)[..4] == "EXEC" && At("EXEC" + rest, 4) == At(rest, 0);
    assert ("WEXEC" + rest)[..5] == "WEXEC" && At("WEXEC" + rest, 5) == At(rest, 0);
    assert ("EXEC" + rest)[0] == 'E' && ("WEXEC" + rest)[0] == 'W' && ("VAR" + rest)[0] == 'V';
    assert "VAR"[0] == 'V' && "EXEC"[0] == 'E';
  }
}
