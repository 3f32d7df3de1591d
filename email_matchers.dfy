/** The byte-class predicates of the email validator
    (examples/email_validator/main.c), and the dispatch that stands for
    calling a registered `input_matcher` pointer. Each reads at most the
    first byte of the unparsed input; none looks at the entry's key. */
module EmailMatchers {
  import opened LibFsm

  /** Shared shape of the three class matchers: reject empty input with
      `n_bytes_read = 0`, accept one byte in `lo..hi` reading 1 byte, and
      otherwise reject leaving `n_bytes_read` as it was. */
  function ByteClass(lo: byte, hi: byte, data: seq<byte>, n: nat): (v: Verdict)
    ensures |data| == 0 ==> v == Verdict(false, 0)
    ensures |data| > 0 ==> (v.accepted <==> lo <= data[0] <= hi)
    ensures v.accepted ==> v.bytesRead == 1
    ensures |data| > 0 && !v.accepted ==> v.bytesRead == n
  {
    if |data| == 0 then Verdict(false, 0)
    else if lo <= data[0] <= hi then Verdict(true, 1)
    else Verdict(false, n)
  }

  /** `match_alpha_lower`: the bytes 97..122. */
  function MatchAlphaLower(data: seq<byte>, n: nat): (v: Verdict)
    ensures |data| > 0 ==> (v.accepted <==> 97 <= data[0] <= 122)
  {
    ByteClass(97, 122, data, n)
  }

  /** `match_alpha_upper`: the bytes 65..90. */
  function MatchAlphaUpper(data: seq<byte>, n: nat): (v: Verdict)
    ensures |data| > 0 ==> (v.accepted <==> 65 <= data[0] <= 90)
  {
    ByteClass(65, 90, data, n)
  }

  /** `match_digit`: the bytes 48..57. */
  function MatchDigit(data: seq<byte>, n: nat): (v: Verdict)
    ensures |data| > 0 ==> (v.accepted <==> 48 <= data[0] <= 57)
  {
    ByteClass(48, 57, data, n)
  }

  /** `match_char`: the wildcard, which accepts any non-empty input. */
  function MatchChar(data: seq<byte>, n: nat): (v: Verdict)
    ensures v.accepted <==> |data| > 0
  {
    if |data| == 0 then Verdict(false, 0) else Verdict(true, 1)
  }

  /** Calling a registered predicate `m(NULL, 0, data, |data|, &n)`. */
  function Match(m: Matcher, data: seq<byte>, n: nat): (v: Verdict)
    ensures |data| == 0 ==> v == Verdict(false, 0)
    ensures v.accepted ==> v.bytesRead == 1 <= |data|
  {
    match m
    case AlphaLower => MatchAlphaLower(data, n)
    case AlphaUpper => MatchAlphaUpper(data, n)
    case Digit => MatchDigit(data, n)
    case AnyChar => MatchChar(data, n)
  }

  /** All four matchers reject empty input and report 0 bytes; an accepting
      matcher reads exactly one byte; a rejecting one leaves 0 or the
      incoming count; and acceptance does not depend on the incoming count. */
  lemma MatchContract(m: Matcher, data: seq<byte>, n: nat)
    ensures |data| == 0 ==> Match(m, data, n) == Verdict(false, 0)
    ensures Match(m, data, n).accepted ==> Match(m, data, n).bytesRead == 1 <= |data|
    ensures !Match(m, data, n).accepted ==> Match(m, data, n).bytesRead in {0, n}
    ensures Match(m, data, n).accepted == Match(m, data, 0).accepted
    ensures Match(m, data, n).accepted ==> Match(m, data, n) == Match(m, data, 0)
  {
  }

  /** The ASCII alphabets the numeric ranges stand for. */
  const LOWER: string := "abcdefghijklmnopqrstuvwxyz"
  const UPPER: string := "ABCDEFGHIJKLMNOPQRSTUVWXYZ"
  const DIGITS: string := "0123456789"

  predicate InAlphabet(b: byte, alphabet: string)
  {
    exists i :: 0 <= i < |alphabet| && alphabet[i] as int == b
  }

  lemma {:induction false} InAlphabetRange(b: byte, alphabet: string, first: char)
    requires forall i :: 0 <= i < |alphabet| ==> alphabet[i] as int == first as int + i
    ensures InAlphabet(b, alphabet) <==> first as int <= b < first as int + |alphabet|
  {
    if first as int <= b < first as int + |alphabet| {
      var i := b - first as int;
      assert alphabet[i] as int == b;
    }
  }

  /** The three class matchers accept a first byte exactly when it is one of
      the letters a..z, the letters A..Z, or the digits 0..9 respectively. */
  lemma {:induction false} ClassMatchersAreAsciiClasses(data: seq<byte>, n: nat)
    requires |data| > 0
    ensures MatchAlphaLower(data, n).accepted <==> InAlphabet(data[0], LOWER)
    ensures MatchAlphaUpper(data, n).accepted <==> InAlphabet(data[0], UPPER)
    ensures MatchDigit(data, n).accepted <==> InAlphabet(data[0], DIGITS)
  {
    InAlphabetRange(data[0], LOWER, 'a');
    InAlphabetRange(data[0], UPPER, 'A');
    InAlphabetRange(data[0], DIGITS, '0');
  }

  /** The alphanumeric classes an entry of the validator registers. */
  predicate Alnum(b: byte)
  {
    (48 <= b <= 57) || (65 <= b <= 90) || (97 <= b <= 122)
  }

  /** The three class ranges are pairwise disjoint, and '@' (64) lies in
      none, so no class predicate ever consumes the '@'. */
  lemma ClassesDisjointAndExcludeAt(data: seq<byte>)
    requires |data| > 0
    ensures !(MatchDigit(data, 0).accepted && MatchAlphaLower(data, 0).accepted)
    ensures !(MatchDigit(data, 0).accepted && MatchAlphaUpper(data, 0).accepted)
    ensures !(MatchAlphaLower(data, 0).accepted && MatchAlphaUpper(data, 0).accepted)
    ensures data[0] == '@' as int ==>
      !MatchDigit(data, 0).accepted && !MatchAlphaLower(data, 0).accepted && !MatchAlphaUpper(data, 0).accepted
    ensures Alnum(data[0]) <==>
      MatchDigit(data, 0).accepted || MatchAlphaLower(data, 0).accepted || MatchAlphaUpper(data, 0).accepted
  {
  }
}
