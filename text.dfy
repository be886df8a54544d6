/** The pieces of Rust's string library that the TGF codec relies on:
    `str::lines`, `str::split_ascii_whitespace` and `[String]::join(" ")`,
    over strings of characters. */
module Text {

  /** `u8::is_ascii_whitespace`: space, tab, line feed, form feed, carriage return
      (vertical tab is not included). */
  predicate IsAsciiWhitespace(c: char) {
    c == ' ' || c == '\t' || c == '\n' || c == '\U{000C}' || c == '\r'
  }

  predicate WhitespaceFree(s: string) {
    forall i :: 0 <= i < |s| ==> !IsAsciiWhitespace(s[i])
  }

  /** One item of `split_ascii_whitespace`: non-empty, no whitespace. */
  predicate IsToken(s: string) {
    |s| > 0 && WhitespaceFree(s)
  }

  /** A line holds no line break characters. */
  predicate SingleLine(s: string) {
    forall i :: 0 <= i < |s| ==> s[i] != '\n' && s[i] != '\r'
  }

  // ---------------------------------------------------------------- tokens

  /** Scanner behind `Tokens`: `cur` is the token read so far. */
  function TokensFrom(s: string, cur: string): (r: seq<string>)
    requires WhitespaceFree(cur)
    ensures forall i :: 0 <= i < |r| ==> IsToken(r[i])
    decreases |s|
  {
    if s == [] then
      if cur == [] then [] else [cur]
    else if IsAsciiWhitespace(s[0]) then
      (if cur == [] then [] else [cur]) + TokensFrom(s[1..], [])
    else
      TokensFrom(s[1..], cur + [s[0]])
  }

  /** `s.split_ascii_whitespace().collect()`: the maximal whitespace-free runs of `s`. */
  function Tokens(s: string): (r: seq<string>)
    ensures forall i :: 0 <= i < |r| ==> IsToken(r[i])
  {
    TokensFrom(s, [])
  }

  /** `words.join(" ")`. */
  function Join(words: seq<string>): string
    decreases |words|
  {
    if |words| == 0 then ""
    else if |words| == 1 then words[0]
    else words[0] + " " + Join(words[1..])
  }

  /** A string that `Join(Tokens(_))` leaves as it is: at least one token,
      tokens separated by single spaces, no leading or trailing whitespace. */
  predicate IsPhrase(s: string) {
    |Tokens(s)| > 0 && Join(Tokens(s)) == s
  }

  lemma {:induction false} TokensFromWord(w: string, rest: string, cur: string)
    requires WhitespaceFree(w) && WhitespaceFree(cur)
    ensures WhitespaceFree(cur + w)
    ensures TokensFrom(w + rest, cur) == TokensFrom(rest, cur + w)
    decreases |w|
  {
    if w == [] {
      assert w + rest == rest;
      assert cur + w == cur;
    } else {
      assert (w + rest)[0] == w[0];
      assert (w + rest)[1..] == w[1..] + rest;
      assert cur + w == (cur + [w[0]]) + w[1..];
      TokensFromWord(w[1..], rest, cur + [w[0]]);
    }
  }

  /** A whitespace character splits the token stream in two. */
  lemma {:induction false} TokensFromSplit(a: string, c: char, b: string, cur: string)
    requires WhitespaceFree(cur) && IsAsciiWhitespace(c)
    ensures TokensFrom(a + [c] + b, cur) == TokensFrom(a, cur) + TokensFrom(b, [])
    decreases |a|
  {
    if a == [] {
      assert a + [c] + b == [c] + b;
      assert ([c] + b)[1..] == b;
    } else {
      var s := a + [c] + b;
      assert s[0] == a[0];
      assert s[1..] == a[1..] + [c] + b;
      if IsAsciiWhitespace(a[0]) {
        TokensFromSplit(a[1..], c, b, []);
      } else {
        TokensFromSplit(a[1..], c, b, cur + [a[0]]);
      }
    }
  }

  /** Inserting one space between two strings separates their tokens. */
  lemma TokensOfSpaced(a: string, b: string)
    ensures Tokens(a + " " + b) == Tokens(a) + Tokens(b)
  {
    assert a + " " + b == a + [' '] + b;
    TokensFromSplit(a, ' ', b, []);
  }

  /** A token is its own and only token. */
  lemma TokensOfToken(w: string)
    requires IsToken(w)
    ensures Tokens(w) == [w]
  {
    TokensFromWord(w, [], []);
    assert w + [] == w;
    assert [] + w == w;
  }

  /** Splitting a line built by joining fields: the leading fields come back
      one token each, followed by the tokens of the last field. */
  lemma {:induction false} TokensOfJoin(fields: seq<string>)
    requires |fields| > 0
    requires forall i :: 0 <= i < |fields| - 1 ==> IsToken(fields[i])
    ensures Tokens(Join(fields)) == fields[..|fields| - 1] + Tokens(fields[|fields| - 1])
    decreases |fields|
  {
    if |fields| > 1 {
      TokensOfSpaced(fields[0], Join(fields[1..]));
      TokensOfToken(fields[0]);
      TokensOfJoin(fields[1..]);
      assert fields[1..][..|fields| - 2] == fields[1..|fields| - 1];
      assert fields[..|fields| - 1] == [fields[0]] + fields[1..|fields| - 1];
    }
  }

  /** `join` then `split_ascii_whitespace` gives the tokens back. */
  lemma TokensOfJoinedTokens(words: seq<string>)
    requires forall i :: 0 <= i < |words| ==> IsToken(words[i])
    ensures Tokens(Join(words)) == words
  {
    if |words| > 0 {
      TokensOfJoin(words);
      TokensOfToken(words[|words| - 1]);
    }
  }

  /** Joined tokens contain no whitespace other than the joining spaces. */
  lemma {:induction false} JoinSingleLine(words: seq<string>)
    requires forall i :: 0 <= i < |words| ==> IsToken(words[i])
    ensures SingleLine(Join(words))
    ensures |words| > 0 ==> |Join(words)| > 0 && Join(words)[|Join(words)| - 1] != ' '
    decreases |words|
  {
    if |words| > 1 {
      JoinSingleLine(words[1..]);
      var j := Join(words);
      assert j == words[0] + " " + Join(words[1..]);
      forall i | 0 <= i < |j| ensures j[i] != '\n' && j[i] != '\r' {
        if i < |words[0]| {
          assert j[i] == words[0][i];
        } else if i > |words[0]| {
          assert j[i] == Join(words[1..])[i - |words[0]| - 1];
        }
      }
    }
  }

  lemma PhraseSingleLine(s: string)
    requires IsPhrase(s)
    ensures SingleLine(s) && |s| > 0
  {
    JoinSingleLine(Tokens(s));
  }

  // ----------------------------------------------------------------- lines

  /** Drops one trailing carriage return. */
  function StripCarriageReturn(line: string): string {
    if |line| > 0 && line[|line| - 1] == '\r' then line[..|line| - 1] else line
  }

  /** Scanner behind `Lines`: `cur` is the current line read so far. */
  function LinesFrom(s: string, cur: string): (r: seq<string>)
    decreases |s|
  {
    if s == [] then
      if cur == [] then [] else [cur]
    else if s[0] == '\n' then
      [StripCarriageReturn(cur)] + LinesFrom(s[1..], [])
    else
      LinesFrom(s[1..], cur + [s[0]])
  }

  /** `str::lines`: split after each "\n", drop that "\n" and one "\r" just
      before it; a final line without "\n" is kept as it is, and no empty
      line follows a final "\n". */
  function Lines(s: string): seq<string> {
    LinesFrom(s, [])
  }

  /** Each line followed by "\n": the text the serializer writes. */
  function Unlines(lines: seq<string>): string
    decreases |lines|
  {
    if lines == [] then "" else lines[0] + "\n" + Unlines(lines[1..])
  }

  /** Proof step: concatenation of text is associative. */
  lemma ConcatAssoc(a: string, b: string, c: string)
    ensures (a + b) + c == a + (b + c)
  {
  }

  lemma {:induction false} UnlinesSnoc(lines: seq<string>, line: string)
    ensures Unlines(lines + [line]) == Unlines(lines) + (line + "\n")
    decreases |lines|
  {
    if lines != [] {
      assert (lines + [line])[1..] == lines[1..] + [line];
      UnlinesSnoc(lines[1..], line);
    }
  }

  lemma {:induction false} UnlinesAppend(a: seq<string>, b: seq<string>)
    ensures Unlines(a + b) == Unlines(a) + Unlines(b)
    decreases |a|
  {
    if a == [] {
      assert a + b == b;
    } else {
      assert (a + b)[1..] == a[1..] + b;
      UnlinesAppend(a[1..], b);
    }
  }

  lemma {:induction false} LinesFromWord(w: string, rest: string, cur: string)
    requires SingleLine(w)
    ensures LinesFrom(w + rest, cur) == LinesFrom(rest, cur + w)
    decreases |w|
  {
    if w == [] {
      assert w + rest == rest;
      assert cur + w == cur;
    } else {
      assert (w + rest)[0] == w[0];
      assert (w + rest)[1..] == w[1..] + rest;
      assert cur + w == (cur + [w[0]]) + w[1..];
      LinesFromWord(w[1..], rest, cur + [w[0]]);
    }
  }

  /** `str::lines` recovers the lines the serializer wrote, one per "\n". */
  lemma {:induction false} LinesOfUnlines(lines: seq<string>)
    requires forall i :: 0 <= i < |lines| ==> SingleLine(lines[i])
    ensures Lines(Unlines(lines)) == lines
    decreases |lines|
  {
    if lines != [] {
      var rest := Unlines(lines[1..]);
      assert Unlines(lines) == lines[0] + ("\n" + rest);
      LinesFromWord(lines[0], "\n" + rest, []);
      assert [] + lines[0] == lines[0];
      assert ("\n" + rest)[1..] == rest;
      LinesOfUnlines(lines[1..]);
    }
  }
}
