/**
 The growable token array of the lexer: a buffer of (class, lexeme) records with a
 capacity that starts at INITIAL_SIZE_TOK and doubles whenever an insertion finds
 it full.
 */
module Tokens {

  const INITIAL_SIZE_TOK: nat := 128

  datatype Token = Token(tokenClass: string, lexeme: string)

  /**
   The capacity after `n` insertions into a fresh array: the capacity doubles
   exactly when an insertion finds the array full.
   */
  ghost function CapacityAfter(n: nat): nat
  {
    if n == 0 then INITIAL_SIZE_TOK
    else
      var c := CapacityAfter(n - 1);
      if c == n - 1 then 2 * c else c
  }

  /** Doubling keeps the buffer large enough, and never more than twice the contents once past the initial size. */
  lemma {:induction false} CapacityBounds(n: nat)
    ensures n <= CapacityAfter(n) && INITIAL_SIZE_TOK <= CapacityAfter(n)
    ensures n <= INITIAL_SIZE_TOK ==> CapacityAfter(n) == INITIAL_SIZE_TOK
    ensures n >= INITIAL_SIZE_TOK ==> CapacityAfter(n) < 2 * n
  {
    if n > 0 {
      CapacityBounds(n - 1);
    }
  }

  class TokenArray {
    var tokens: array<Token>
    var sizeOfStructure: int
    var number: int

    ghost predicate Valid()
      reads this
    {
      && tokens.Length == sizeOfStructure
      && 0 <= number <= sizeOfStructure
      && sizeOfStructure == CapacityAfter(number)
    }

    /** The tokens inserted so far, in insertion order. */
    function Contents(): seq<Token>
      reads this, tokens
      requires Valid()
    {
      tokens[..number]
    }

    /** An empty array with the initial capacity. */
    constructor InitializeTokenArray()
      ensures Valid() && fresh(tokens)
      ensures Contents() == [] && sizeOfStructure == INITIAL_SIZE_TOK
    {
      tokens := new Token[INITIAL_SIZE_TOK](_ => Token("", ""));
      sizeOfStructure := INITIAL_SIZE_TOK;
      number := 0;
    }

    /** Append one token, doubling the buffer (and copying the old contents over) when it is full. */
    method InsertToken(tokenClass: string, lexeme: string)
      requires Valid()
      modifies this, tokens
      ensures tokens == old(tokens) || fresh(tokens)
      ensures Valid()
      ensures Contents() == old(Contents()) + [Token(tokenClass, lexeme)]
      ensures number == old(number) + 1
      ensures sizeOfStructure ==
        (if old(sizeOfStructure) == old(number) then 2 * old(sizeOfStructure) else old(sizeOfStructure))
    {
      ghost var before := tokens[..number];
      CapacityBounds(number);
      if sizeOfStructure == number {
        Grow();
      }
      tokens[number] := Token(tokenClass, lexeme);
      assert tokens[..number] == before;
      assert tokens[..number + 1] == before + [Token(tokenClass, lexeme)];
      number := number + 1;
    }

    /** Double the capacity of a full buffer, copying the tokens over to a fresh one. */
    method Grow()
      requires Valid() && number == sizeOfStructure
      modifies this
      ensures fresh(tokens) && number == old(number) && sizeOfStructure == 2 * old(sizeOfStructure)
      ensures tokens.Length == sizeOfStructure && sizeOfStructure == CapacityAfter(number + 1)
      ensures tokens[..number] == old(tokens[..number])
    {
      var grown := new Token[2 * sizeOfStructure](_ => Token("", ""));
      var i := 0;
      while i < number
        invariant 0 <= i <= number <= tokens.Length < grown.Length
        invariant grown[..i] == tokens[..i]
        modifies grown
      {
        grown[i] := tokens[i];
        i := i + 1;
      }
      assert grown[..number] == tokens[..number];
      sizeOfStructure := grown.Length;
      tokens := grown;
    }
  }
}
