/** The random key generator of the key-value generator tool
    (gen_random_key_value.c): a key of `keyLen` ASCII letters followed by a
    terminating NUL. Each letter takes two random numbers, one choosing the
    case by its parity and one the letter by its remainder modulo 26. The
    random numbers, `rng_int32()` in the C code, are the parameter `draws`,
    two per letter. */
module RandomKeyValue {

  /** An ASCII letter, lower or upper case. */
  predicate IsLetter(c: char) {
    ('a' <= c <= 'z') || ('A' <= c <= 'Z')
  }

  /** The letter for the draws `r1, r2` (gen_random_key_value.c:25-32):
      lower case when `r1 % 2` is non-zero, upper case otherwise, the
      `r2 % 26`-th letter of the alphabet. */
  function Letter(r1: nat, r2: nat): (c: char)
    ensures IsLetter(c)
    ensures ('a' <= c <= 'z') <==> r1 % 2 != 0
  {
    if r1 % 2 != 0 then ('a' as int + r2 % 26) as char else ('A' as int + r2 % 26) as char
  }

  /** Every letter can be drawn: lower case letters with an odd first draw,
      upper case ones with an even one, and the second draw picks the
      letter. */
  lemma LetterCoversAlphabet(c: char)
    requires IsLetter(c)
    ensures 'a' <= c <= 'z' ==> Letter(1, c as int - 'a' as int) == c
    ensures 'A' <= c <= 'Z' ==> Letter(0, c as int - 'A' as int) == c
  {
  }

  /** The `n` letters drawn from `draws`, letter `i` from draws `2i` and
      `2i + 1`. */
  function RandomString(n: nat, draws: seq<nat>): (s: seq<char>)
    requires |draws| >= 2 * n
    ensures |s| == n && forall i :: 0 <= i < n ==> IsLetter(s[i])
  {
    seq(n, i requires 0 <= i < n => Letter(draws[2 * i], draws[2 * i + 1]))
  }

  /** The guard as written (gen_random_key_value.c:17): a key is generated
      unless `buflen < keyLen`. */
  function GeneratesAsWritten(buflen: nat, keyLen: nat): bool {
    !(buflen < keyLen)
  }

  /** The indices a generation writes, in order: the terminator at
      `keyLen` first, then the key's bytes `0 .. keyLen - 1`
      (gen_random_key_value.c:22-33). */
  function Written(keyLen: nat): (w: seq<nat>)
    ensures |w| == keyLen + 1 && w[0] == keyLen
    ensures forall i :: 0 < i < |w| ==> w[i] == i - 1
  {
    [keyLen] + seq(keyLen, i => i)
  }

  /** The indices written are exactly `0 .. keyLen`: the bytes that
      GenerateRandomString's contract lets change. */
  lemma WrittenIndices(keyLen: nat)
    ensures forall i :: i in Written(keyLen) <==> 0 <= i <= keyLen
  {
    var w := Written(keyLen);
    forall i | 0 <= i <= keyLen
      ensures i in w
    {
      if i == keyLen {
        assert w[0] == i;
      } else {
        assert w[i + 1] == i;
      }
    }
  }

  /** As written, a buffer of exactly `keyLen` bytes passes the guard, and
      the first write, the terminator, lands one past its end. */
  lemma GuardAsWrittenOverflows(keyLen: nat)
    ensures GeneratesAsWritten(keyLen, keyLen) && Written(keyLen)[0] >= keyLen
  {
  }

  /** The intended guard: a key is generated only when the terminator fits,
      `keyLen < buflen`. */
  function Generates(buflen: nat, keyLen: nat): bool {
    keyLen < buflen
  }

  /** With the intended guard every written index is inside the buffer. */
  lemma GuardStaysInBuffer(buflen: nat, keyLen: nat)
    requires Generates(buflen, keyLen)
    ensures forall i :: 0 <= i < |Written(keyLen)| ==> Written(keyLen)[i] < buflen
  {
  }

  /** GenerateRandomString (gen_random_key_value.c:12-34) with the intended
      guard: a buffer too small for the key and its terminator is left as
      it is; otherwise its first `keyLen` bytes become the drawn letters,
      byte `keyLen` the terminator, and nothing after it changes. The C
      caller promises that `buflen` is the buffer's size at most. */
  method GenerateRandomString(buf: array<char>, buflen: nat, keyLen: nat, draws: seq<nat>)
    requires buflen <= buf.Length && |draws| >= 2 * keyLen
    modifies buf
    ensures !Generates(buflen, keyLen) ==> buf[..] == old(buf[..])
    ensures Generates(buflen, keyLen) ==>
      buf[..] == RandomString(keyLen, draws) + ['\0'] + old(buf[keyLen + 1..])
  {
    if !Generates(buflen, keyLen) {
      return;
    }
    ghost var key := RandomString(keyLen, draws);
    buf[keyLen] := '\0';
    for i := 0 to keyLen
      invariant forall j :: 0 <= j < i ==> buf[j] == key[j]
      invariant buf[keyLen] == '\0'
      invariant forall j :: i <= j < buf.Length && j != keyLen ==> buf[j] == old(buf[j])
    {
      var rn1 := draws[2 * i] % 2;
      var rn2 := draws[2 * i + 1] % 26;
      if rn1 != 0 {
        buf[i] := ('a' as int + rn2) as char;
      } else {
        buf[i] := ('A' as int + rn2) as char;
      }
    }
    ghost var want := key + ['\0'] + old(buf[keyLen + 1..]);
    assert forall j :: 0 <= j < buf.Length ==> buf[..][j] == want[j];
  }
}
