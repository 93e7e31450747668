/**
 * ShortCodeGenerator: turns random bytes into Base62 codes and validates
 * the format of a code. The random number generator is replaced by the
 * bytes it would have produced, given by the caller.
 */
module ShortCodeGenerator {
  import opened Wrappers
  import opened Text

  newtype byte = x: int | 0 <= x < 256

  /** `n` consecutive characters starting at `first`. */
  function CharRange(first: char, n: nat): (s: string)
    requires first as int + n <= 0xD800
    ensures |s| == n
  {
    seq(n, i requires 0 <= i < n => (first as int + i) as char)
  }

  /** A character lies in a run exactly when it lies between the run's ends. */
  lemma InCharRange(first: char, n: nat, c: char)
    requires first as int + n <= 0xD800
    ensures c in CharRange(first, n) <==> first as int <= c as int < first as int + n
  {
    if first as int <= c as int < first as int + n {
      assert CharRange(first, n)[c as int - first as int] == c;
    }
  }

  /** The 62 URL-safe characters, in the source's order: a-z, A-Z, 0-9. */
  const Base62Chars: string := CharRange('a', 26) + CharRange('A', 26) + CharRange('0', 10)
  const DefaultLength: int := 7
  const MinLength: int := 4
  const MaxLength: int := 12

  /** The `ArgumentException` thrown for a length outside [MinLength, MaxLength]. */
  datatype GeneratorError = LengthOutOfRange(length: int)

  /** An ASCII letter or digit: the reference definition of the Base62 alphabet. */
  predicate IsAsciiAlphanumeric(c: char) {
    ('a' <= c <= 'z') || ('A' <= c <= 'Z') || ('0' <= c <= '9')
  }

  /** Written as three runs, the alphabet is the source's literal "a…zA…Z0…9". */
  lemma Base62CharsLiteral()
    ensures Base62Chars == "abcdefghijklmnopqrstuvwxyz" + "ABCDEFGHIJKLMNOPQRSTUVWXYZ" + "0123456789"
  {
    LowerCaseRun();
    UpperCaseRun();
    assert CharRange('0', 10) == "0123456789";
  }

  lemma LowerCaseRun()
    ensures CharRange('a', 26) == "abcdefghijklmnopqrstuvwxyz"
  {
    var s := CharRange('a', 26);
    forall i | 0 <= i < 26 ensures s[i] == "abcdefghijklmnopqrstuvwxyz"[i] {
    }
  }

  lemma UpperCaseRun()
    ensures CharRange('A', 26) == "ABCDEFGHIJKLMNOPQRSTUVWXYZ"
  {
    var s := CharRange('A', 26);
    forall i | 0 <= i < 26 ensures s[i] == "ABCDEFGHIJKLMNOPQRSTUVWXYZ"[i] {
    }
  }

  /** The alphabet holds exactly the ASCII letters and digits. */
  lemma Base62CharsAreAlphanumerics(c: char)
    ensures c in Base62Chars <==> IsAsciiAlphanumeric(c)
  {
    InCharRange('a', 26, c);
    InCharRange('A', 26, c);
    InCharRange('0', 10, c);
  }

  /** One byte mapped into the alphabet: `Base62Chars[b % Base62Chars.Length]`. */
  function Base62Char(b: byte): (c: char)
    ensures c in Base62Chars
  {
    Base62Chars[b as int % |Base62Chars|]
  }

  /** The code the generator builds from a buffer of random bytes. */
  function Base62Encode(bytes: seq<byte>): (s: string)
    ensures |s| == |bytes|
  {
    seq(|bytes|, i requires 0 <= i < |bytes| => Base62Char(bytes[i]))
  }

  /**
   * `IsValidShortCode`: not blank, of an allowed length, and drawn from the
   * alphabet. The blank check never decides on its own: a code of an allowed
   * length is accepted exactly when all its characters are in the alphabet.
   */
  predicate IsValidShortCode(code: string): (valid: bool)
    ensures valid <==> MinLength <= |code| <= MaxLength && forall i :: 0 <= i < |code| ==> code[i] in Base62Chars
  {
    AlphabetCodeIsNotBlank(code);
    if IsNullOrWhiteSpace(code) then false
    else if |code| < MinLength || |code| > MaxLength then false
    else forall i :: 0 <= i < |code| ==> code[i] in Base62Chars
  }

  /** A non-empty string drawn from the alphabet is not blank. */
  lemma AlphabetCodeIsNotBlank(code: string)
    ensures 0 < |code| && (forall i :: 0 <= i < |code| ==> code[i] in Base62Chars) ==> !IsNullOrWhiteSpace(code)
  {
    if 0 < |code| && code[0] in Base62Chars {
      AlphabetHasNoWhiteSpace(code[0]);
    }
  }

  /**
   * `Generate(length)`, reading its random bytes from `rng`: fails exactly
   * for a length outside [MinLength, MaxLength]; otherwise maps the first
   * `length` bytes one by one into the alphabet, which yields a valid code.
   */
  method Generate(length: int, rng: seq<byte>) returns (r: Result<string, GeneratorError>)
    requires MinLength <= length <= MaxLength ==> length <= |rng|
    ensures r.Err? <==> length < MinLength || length > MaxLength
    ensures r.Err? ==> r.error == LengthOutOfRange(length)
    ensures r.Ok? ==> r.value == Base62Encode(rng[..length])
    ensures r.Ok? ==> |r.value| == length && IsValidShortCode(r.value)
  {
    if length < MinLength || length > MaxLength {
      return Err(LengthOutOfRange(length));
    }
    var randomBytes := rng[..length];
    var sb: string := [];
    for i := 0 to length
      invariant sb == Base62Encode(randomBytes[..i])
    {
      sb := sb + [Base62Char(randomBytes[i])];
      assert randomBytes[..i+1] == randomBytes[..i] + [randomBytes[i]];
    }
    assert randomBytes[..length] == randomBytes;
    GeneratedCodeIsValid(randomBytes);
    return Ok(sb);
  }

  /** Round trip: every code the generator can produce passes the validator. */
  lemma GeneratedCodeIsValid(bytes: seq<byte>)
    requires MinLength <= |bytes| <= MaxLength
    ensures IsValidShortCode(Base62Encode(bytes))
  {
    var s := Base62Encode(bytes);
    assert s[0] == Base62Char(bytes[0]);
    AlphabetHasNoWhiteSpace(s[0]);
    assert forall i :: 0 <= i < |s| ==> s[i] == Base62Char(bytes[i]);
  }

  lemma AlphabetHasNoWhiteSpace(c: char)
    requires c in Base62Chars
    ensures !IsWhiteSpace(c)
  {
    Base62CharsAreAlphanumerics(c);
  }

  /**
   * The validator accepts exactly the codes of length 4 to 12 made of ASCII
   * letters and digits; its blank check is implied by the alphabet check.
   */
  lemma ValidShortCodeIff(code: string)
    ensures IsValidShortCode(code) <==>
      && MinLength <= |code| <= MaxLength
      && forall i :: 0 <= i < |code| ==> IsAsciiAlphanumeric(code[i])
  {
    if MinLength <= |code| && forall i :: 0 <= i < |code| ==> IsAsciiAlphanumeric(code[i]) {
      Base62CharsAreAlphanumerics(code[0]);
      AlphabetHasNoWhiteSpace(code[0]);
      forall i | 0 <= i < |code| ensures code[i] in Base62Chars {
        Base62CharsAreAlphanumerics(code[i]);
      }
    }
    if IsValidShortCode(code) {
      forall i | 0 <= i < |code| ensures IsAsciiAlphanumeric(code[i]) {
        Base62CharsAreAlphanumerics(code[i]);
      }
    }
  }

  /** A valid code never contains a character outside the alphabet, such as '.', '-', '_' or ' '. */
  lemma ValidShortCodeExcludes(code: string, c: char)
    requires IsValidShortCode(code)
    requires c !in Base62Chars
    ensures c !in code
  {
  }

  /** Codes the validator accepts: letters and digits, 4 to 12 of them. */
  lemma AcceptedCodeExamples()
    ensures IsValidShortCode("abc1234") && IsValidShortCode("ABCD") && IsValidShortCode("abcd")
    ensures IsValidShortCode("1234567890AB")
  {
    forall code | code in ["abc1234", "ABCD", "abcd", "1234567890AB"] ensures IsValidShortCode(code) {
      forall i | 0 <= i < |code| ensures IsAsciiAlphanumeric(code[i]) {
      }
      ValidShortCodeIff(code);
    }
  }

  /** Codes the validator turns down: too short, too long, a stray character, or empty. */
  lemma RejectedCodeExamples()
    ensures !IsValidShortCode("ab") && !IsValidShortCode("abc") && !IsValidShortCode("abcdefghijklm")
    ensures !IsValidShortCode("abc-123") && !IsValidShortCode("abc_123") && !IsValidShortCode("abc 123")
    ensures !IsValidShortCode("")
  {
    forall code | code in ["abc-123", "abc_123", "abc 123"] ensures !IsValidShortCode(code) {
      ValidShortCodeIff(code);
      assert !IsAsciiAlphanumeric(code[3]);
    }
  }
}
