/** The path lexer of `pathlexer.c`. A path is a C string: the characters before its terminator. */
module PathLexer {

  datatype Kind = Identifier | Letter | Colon | Slash | Dot | End | Err
  datatype Token = Token(kind: Kind, start: nat, len: nat)

  predicate IsAlpha(c: char) {
    'A' <= c <= 'Z' || 'a' <= c <= 'z'
  }

  /** The character at `i`; the terminator sits behind the text. */
  function Peek(t: string, i: nat): char {
    if i < |t| then t[i] else '\0'
  }

  function AlphaEnd(t: string, i: nat): (e: nat)
    requires i <= |t|
    ensures i <= e <= |t|
    decreases |t| - i
  {
    if IsAlpha(Peek(t, i)) then AlphaEnd(t, i + 1) else i
  }

  /** The token at `pos`. */
  function Lex(t: string, pos: nat): (k: Token)
    requires pos <= |t|
    ensures k.start == pos && pos + k.len <= |t|
    ensures k.kind == End <==> k.len == 0
    ensures k.kind == End <==> pos == |t|
    ensures k.kind == Err ==> k.len == 1
  {
    if pos == |t| then Token(End, pos, 0)
    else if IsAlpha(t[pos]) && Peek(t, pos + 1) == ':' then Token(Letter, pos, 1)
    else if t[pos] == '/' then Token(Slash, pos, 1)
    else if t[pos] == ':' then Token(Colon, pos, 1)
    else if t[pos] == '.' then Token(Dot, pos, 1)
    else if IsAlpha(t[pos]) then Token(Identifier, pos, AlphaEnd(t, pos + 1) - pos)
    else Token(Err, pos, 1)
  }

  function TokenText(t: string, k: Token): string
    requires k.start + k.len <= |t|
  {
    t[k.start..k.start + k.len]
  }

  /** The texts of all tokens from `pos` on, in order. */
  function TokenTexts(t: string, pos: nat): seq<string>
    requires pos <= |t|
    decreases |t| - pos
  {
    var k := Lex(t, pos);
    if k.kind == End then [] else [TokenText(t, k)] + TokenTexts(t, pos + k.len)
  }

  function Joined(s: seq<string>): string {
    if s == [] then "" else s[0] + Joined(s[1..])
  }

  lemma JoinedMore(x: string, s: seq<string>)
    ensures Joined([x] + s) == x + Joined(s)
  {
    assert ([x] + s)[1..] == s;
  }

  /** Totality: for every string, the lexer ends and its tokens spell the string, leaving nothing out. */
  lemma {:induction false} TokensCover(t: string, pos: nat)
    requires pos <= |t|
    ensures Joined(TokenTexts(t, pos)) == t[pos..]
    decreases |t| - pos
  {
    hide Lex, AlphaEnd;
    var k := Lex(t, pos);
    if k.kind != End {
      TokensCover(t, pos + k.len);
      assert t[pos..] == t[pos..pos + k.len] + t[pos + k.len..];
      JoinedMore(TokenText(t, k), TokenTexts(t, pos + k.len));
    }
  }

  class Lexer {
    const text: string
    var start: nat
    var curr: nat

    ghost predicate Valid()
      reads this
    {
      start <= curr <= |text| && '\0' !in text
    }

    /** `path_lexer_init` */
    constructor (path: string)
      requires '\0' !in path
      ensures Valid() && text == path && curr == 0
    {
      text, start, curr := path, 0, 0;
    }

    method Advance() returns (c: char)
      requires Valid() && curr < |text|
      modifies this`curr
      ensures Valid() && curr == old(curr) + 1 && c == text[old(curr)]
    {
      curr := curr + 1;
      return text[curr - 1];
    }

    /** The loop of `_path_lexer_lex_identifier`. */
    method LexIdentifier() returns (k: Token)
      requires Valid()
      modifies this`curr
      ensures Valid() && curr == AlphaEnd(text, old(curr)) && k == Token(Identifier, start, curr - start)
    {
      while IsAlpha(Peek(text, curr))
        invariant Valid() && AlphaEnd(text, curr) == AlphaEnd(text, old(curr))
        decreases |text| - curr
      {
        var c := Advance();
      }
      return Token(Identifier, start, curr - start);
    }

    /** `path_lexer_lex`: the character tests of the source against the terminator are tests for the end of the text. */
    method LexToken() returns (k: Token)
      requires Valid()
      modifies this
      ensures Valid() && k == Lex(text, old(curr)) && start == old(curr) && curr == start + k.len
    {
      start := curr;
      if Peek(text, curr) == '\0' {
        return Token(End, start, curr - start);
      }
      if IsAlpha(Peek(text, curr)) && Peek(text, curr + 1) == ':' {
        var c := Advance();
        return Token(Letter, start, curr - start);
      }
      var ch := Advance();
      if ch == '/' { return Token(Slash, start, curr - start); }
      if ch == ':' { return Token(Colon, start, curr - start); }
      if ch == '.' { return Token(Dot, start, curr - start); }
      if IsAlpha(ch) {
        k := LexIdentifier();
        return;
      }
      return Token(Err, start, curr - start);
    }
  }
}
