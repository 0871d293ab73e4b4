/**
 * Join codes: short strings drawn from a 32-character alphabet that leaves out
 * the characters people confuse (I, O, 0 and 1). The random draws are an input.
 */
module Codes {
  import opened Options
  import opened JsString

  const Alphabet: string := "ABCDEFGHJKLMNPQRSTUVWXYZ23456789"

  /** The length used when no length is configured. */
  const DefaultLength: int := 5

  /** Each character is smaller than the next. */
  predicate Ascending(s: string) {
    forall i :: 0 <= i < |s| - 1 ==> s[i] < s[i + 1]
  }

  lemma {:induction false} AscendingIsDistinct(s: string)
    requires Ascending(s)
    ensures forall i, j :: 0 <= i < j < |s| ==> s[i] < s[j]
  {
    if |s| > 1 {
      AscendingIsDistinct(s[1..]);
      forall i, j | 0 <= i < j < |s| ensures s[i] < s[j] {
        if i > 0 {
          assert s[i] == s[1..][i - 1] && s[j] == s[1..][j - 1];
        } else if j > 1 {
          assert s[1] == s[1..][0] && s[j] == s[1..][j - 1];
        }
      }
    }
  }

  /** Every character of `s` is taken from the alphabet. */
  predicate OverAlphabet(s: string) {
    forall i :: 0 <= i < |s| ==> s[i] in Alphabet
  }

  /** Every alphabet character is an upper-case ASCII letter or a digit. */
  predicate IsCodeChar(c: char) {
    ('A' <= c <= 'Z') || ('0' <= c <= '9')
  }

  /** A code character is neither a lower-case letter nor whitespace. */
  lemma {:induction false} CodeCharIsPlain(c: char)
    requires IsCodeChar(c)
    ensures !('a' <= c <= 'z') && !IsWhitespace(c)
  {
  }

  lemma {:induction false} AlphabetIsUpperAlphanumeric()
    ensures forall c :: c in Alphabet ==> IsCodeChar(c)
  {
    forall c | c in Alphabet ensures IsCodeChar(c) {
      var k :| 0 <= k < |Alphabet| && Alphabet[k] == c;
    }
  }

  /** The alphabet is 24 ascending letters followed by 8 ascending digits. */
  lemma {:induction false} AlphabetParts()
    ensures |Alphabet| == 32
    ensures Ascending(Alphabet[..24]) && Alphabet[0] == 'A'
    ensures Ascending(Alphabet[24..]) && Alphabet[31] == '9'
  {
    assert Alphabet[..24] == "ABCDEFGHJKLMNPQRSTUVWXYZ";
    assert Alphabet[24..] == "23456789";
  }

  /** No alphabet character occurs twice. */
  lemma {:induction false} AlphabetDistinct()
    ensures forall i, j :: 0 <= i < j < |Alphabet| ==> Alphabet[i] != Alphabet[j]
  {
    AlphabetParts();
    var letters := Alphabet[..24];
    var digits := Alphabet[24..];
    AscendingIsDistinct(letters);
    AscendingIsDistinct(digits);
    forall i, j | 0 <= i < j < |Alphabet| ensures Alphabet[i] != Alphabet[j] {
      if j < 24 {
        assert Alphabet[i] == letters[i] && Alphabet[j] == letters[j];
      } else if i >= 24 {
        assert Alphabet[i] == digits[i - 24] && Alphabet[j] == digits[j - 24];
      } else {
        assert letters[0] <= letters[i] && digits[j - 24] <= digits[7];
      }
    }
  }

  /** The alphabet has 32 distinct characters. */
  lemma {:induction false} AlphabetShape()
    ensures |Alphabet| == 32
    ensures forall i, j :: 0 <= i < j < |Alphabet| ==> Alphabet[i] != Alphabet[j]
  {
    AlphabetParts();
    AlphabetDistinct();
  }

  /** The characters people confuse are not in the alphabet. */
  lemma {:induction false} AlphabetAvoidsConfusables()
    ensures forall c :: c in Alphabet ==> c != 'I' && c != 'O' && c != '0' && c != '1'
  {
    AlphabetIsUpperAlphanumeric();
  }

  /**
   * `Math.floor(r * alphabet.length)` for a draw `r` of `Math.random()`, which lies
   * in [0, 1): always a valid position in the alphabet.
   */
  function DrawIndex(r: real): (k: int)
    requires 0.0 <= r < 1.0
    ensures 0 <= k < |Alphabet|
  {
    var x := r * |Alphabet| as real;
    assert 0.0 <= x < 32.0;
    x.Floor
  }

  /** The code length: the configured length, or 5 when none is configured. */
  function CodeLength(configured: Option<int>): (n: int)
    ensures configured.None? ==> n == 5
    ensures configured.Some? ==> n == configured.value
  {
    match configured
    case Some(n) => n
    case None => DefaultLength
  }

  /**
   * `makeJoinCode(len)`: appends one alphabet character per draw, `len` times;
   * a length of zero or less gives the empty code.
   */
  method MakeJoinCode(configured: Option<int>, draws: seq<real>) returns (out: string)
    requires forall i :: 0 <= i < |draws| ==> 0.0 <= draws[i] < 1.0
    requires CodeLength(configured) <= |draws|
    ensures |out| == if CodeLength(configured) < 0 then 0 else CodeLength(configured)
    ensures configured == None ==> |out| == 5
    ensures forall i :: 0 <= i < |out| ==> out[i] == Alphabet[DrawIndex(draws[i])]
    ensures OverAlphabet(out)
  {
    var len := CodeLength(configured);
    out := "";
    var i := 0;
    while i < len
      invariant 0 <= i <= |draws|
      invariant i == 0 || i <= len
      invariant |out| == i
      invariant forall k :: 0 <= k < i ==> out[k] == Alphabet[DrawIndex(draws[k])]
    {
      out := out + [Alphabet[DrawIndex(draws[i])]];
      i := i + 1;
    }
  }

  /** An alphabet character is a code character. */
  lemma {:induction false} InAlphabet(c: char)
    requires c in Alphabet
    ensures IsCodeChar(c)
  {
    AlphabetIsUpperAlphanumeric();
  }

  /** A string with no lower-case letter and no whitespace is left as it is by `toUpperCase().trim()`. */
  lemma {:induction false} NormalizationKeepsPlain(code: string)
    requires forall i :: 0 <= i < |code| ==> !('a' <= code[i] <= 'z') && !IsWhitespace(code[i])
    ensures Trim(ToUpper(code)) == code
  {
    ToUpperIdentity(code);
    TrimOfTrimmed(code);
  }

  /**
   * A generated code survives the normalisation the join endpoint applies,
   * `toUpperCase().trim()`, unchanged.
   */
  lemma {:induction false} NormalizationKeepsCode(code: string)
    requires OverAlphabet(code)
    ensures Trim(ToUpper(code)) == code
  {
    CodeIsPlain(code);
    NormalizationKeepsPlain(code);
  }

  /** A string over the alphabet has no lower-case letter and no whitespace. */
  lemma {:induction false} CodeIsPlain(code: string)
    requires OverAlphabet(code)
    ensures forall i :: 0 <= i < |code| ==> !('a' <= code[i] <= 'z') && !IsWhitespace(code[i])
  {
    forall i | 0 <= i < |code| ensures !('a' <= code[i] <= 'z') && !IsWhitespace(code[i]) {
      InAlphabet(code[i]);
      CodeCharIsPlain(code[i]);
    }
  }
}
