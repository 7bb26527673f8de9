/**
 * The confirmation-code generator. The random source is a parameter: `picks`
 * holds the index that each call to the random choice returned, in order.
 */
module Service {

  /** The characters from `first` onwards, `n` of them, in code-point order. */
  function CharRun(first: char, n: nat): (s: string)
    requires first as int + n <= 0xD800
    ensures |s| == n
    ensures forall c :: c in s <==> first <= c && (c as int) < first as int + n
  {
    var s := seq(n, i requires 0 <= i < n => (first as int + i) as char);
    forall c | first <= c && (c as int) < first as int + n
      ensures c in s
    {
      assert s[c as int - first as int] == c;
    }
    s
  }

  /** ASCII letters, lower case then upper case, followed by the ten digits. */
  const AsciiLetters: string := CharRun('a', 26) + CharRun('A', 26)
  const Digits: string := CharRun('0', 10)
  const DefaultAlphabet: string := AsciiLetters + Digits
  const DefaultLength: nat := 12

  predicate IsAsciiAlphanumeric(c: char)
  {
    'a' <= c <= 'z' || 'A' <= c <= 'Z' || '0' <= c <= '9'
  }

  /** The default alphabet holds exactly the 52 ASCII letters and the 10 digits. */
  lemma DefaultAlphabetIsAlphanumeric()
    ensures |DefaultAlphabet| == 62
    ensures forall c :: c in DefaultAlphabet <==> IsAsciiAlphanumeric(c)
  {
  }

  /** Spelled out, the default alphabet is the letters a to z, A to Z, then 0 to 9. */
  lemma DefaultAlphabetSpelledOut()
    ensures DefaultAlphabet == "abcdefghijklmnopqrstuvwxyzABCDEFGHIJKLMNOPQRSTUVWXYZ0123456789"
  {
    LettersSpelledOut();
    assert Digits == "0123456789";
  }

  lemma LettersSpelledOut()
    ensures AsciiLetters == "abcdefghijklmnopqrstuvwxyzABCDEFGHIJKLMNOPQRSTUVWXYZ"
  {
    LowerSpelledOut();
    UpperSpelledOut();
  }

  lemma LowerSpelledOut()
    ensures CharRun('a', 26) == "abcdefghijklmnopqrstuvwxyz"
  {
  }

  lemma UpperSpelledOut()
    ensures CharRun('A', 26) == "ABCDEFGHIJKLMNOPQRSTUVWXYZ"
  {
  }

  /** One random index per character, each a valid index into `characters`. */
  predicate ValidPicks(length: nat, characters: string, picks: seq<nat>)
  {
    |picks| == length && forall i :: 0 <= i < |picks| ==> picks[i] < |characters|
  }

  /** The joined random choices: `length` characters, each taken from `characters`. */
  function GeneratePassword(length: nat, characters: string, picks: seq<nat>): (password: string)
    requires ValidPicks(length, characters, picks)
    ensures |password| == length
    ensures forall i :: 0 <= i < |password| ==> password[i] in characters
    ensures forall i :: 0 <= i < |password| ==> password[i] == characters[picks[i]]
  {
    if length == 0 then ""
    else GeneratePassword(length - 1, characters, picks[..length - 1]) + [characters[picks[length - 1]]]
  }

  /** The code sign-up sends: twelve ASCII letters or digits. */
  lemma DefaultCodeShape(picks: seq<nat>)
    requires ValidPicks(DefaultLength, DefaultAlphabet, picks)
    ensures var code := GeneratePassword(DefaultLength, DefaultAlphabet, picks);
      |code| == 12 && forall i :: 0 <= i < |code| ==> IsAsciiAlphanumeric(code[i])
  {
    DefaultAlphabetIsAlphanumeric();
  }

  /** A zero length gives the empty string whatever the alphabet. */
  lemma EmptyPassword(characters: string)
    ensures GeneratePassword(0, characters, []) == ""
  {
  }
}
