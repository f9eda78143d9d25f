/** `nanoid(size)`: a code of `size` symbols drawn from the 64-symbol URL-safe
    alphabet, each symbol chosen by the low six bits of one random byte. */
module NanoId {

  predicate UrlSafe(c: char) {
    ('A' <= c <= 'Z') || ('a' <= c <= 'z') || ('0' <= c <= '9') || c == '-' || c == '_'
  }

  /** The symbol with index `k` (the base64url ordering of the alphabet). */
  function Symbol(k: nat): (c: char)
    requires k < 64
    ensures UrlSafe(c)
  {
    if k < 26 then ('A' as int + k) as char
    else if k < 52 then ('a' as int + (k - 26)) as char
    else if k < 62 then ('0' as int + (k - 52)) as char
    else if k == 62 then '-'
    else '_'
  }

  /** The index of a symbol of the alphabet. */
  function SymbolIndex(c: char): (k: nat)
    requires UrlSafe(c)
    ensures k < 64
  {
    if 'A' <= c <= 'Z' then c as int - 'A' as int
    else if 'a' <= c <= 'z' then c as int - 'a' as int + 26
    else if '0' <= c <= '9' then c as int - '0' as int + 52
    else if c == '-' then 62
    else 63
  }

  /** Symbol and SymbolIndex are inverse bijections between 0..63 and the alphabet. */
  lemma SymbolRoundTrip(k: nat, c: char)
    requires k < 64 && UrlSafe(c)
    ensures SymbolIndex(Symbol(k)) == k
    ensures Symbol(SymbolIndex(c)) == c
  {
  }

  /** The code `nanoid(size)` builds from the random byte stream `random`. */
  function Generate(size: nat, random: nat -> bv8): (code: string)
    ensures |code| == size
    ensures forall i :: 0 <= i < size ==> UrlSafe(code[i])
    ensures forall i :: 0 <= i < size ==> SymbolIndex(code[i]) == (random(i) & 63) as nat
  {
    var code := seq(size, i requires 0 <= i < size => Symbol((random(i) & 63) as nat));
    assert forall i :: 0 <= i < size ==> code[i] == Symbol((random(i) & 63) as nat);
    code
  }
}
