/**
  convert_latin/src/main.rs: `convert_enlish`, which turns one word into Pig
  Latin by looking its first character, ASCII-lowercased, up in two constant
  tables.
*/
module PigLatin {

  /** `CONSONANTS`, in the source's order. */
  const Consonants: seq<char> :=
    ['b', 'c', 'd', 'f', 'g', 'h', 'j', 'k', 'l', 'm', 'n', 'p', 'q', 'r', 's', 't', 'v', 'x', 'z',
     'w', 'y']

  /** `VOWELS`. */
  const Vowels: seq<char> := ['a', 'e', 'i', 'o', 'u']

  predicate IsAsciiUpper(c: char)
  {
    'A' <= c <= 'Z'
  }

  predicate IsAsciiLetter(c: char)
  {
    'a' <= c <= 'z' || IsAsciiUpper(c)
  }

  /** `char::to_ascii_lowercase`: 'A'..'Z' become 'a'..'z', every other character stays. */
  function ToAsciiLowercase(c: char): (r: char)
    ensures IsAsciiUpper(c) ==> 'a' <= r <= 'z' && (r as int) - (c as int) == 32
    ensures !IsAsciiUpper(c) ==> r == c
  {
    if IsAsciiUpper(c) then ((c as int) + 32) as char else c
  }

  /** The two tables share no letter, and between them hold exactly the 26 lowercase ASCII letters, each once. */
  lemma TablesPartitionLowercase()
    ensures |Consonants| + |Vowels| == 26
    ensures forall c :: c in Consonants ==> c !in Vowels
    ensures forall c :: c in Consonants || c in Vowels <==> 'a' <= c <= 'z'
    ensures forall i, j :: 0 <= i < j < |Consonants| ==> Consonants[i] != Consonants[j]
    ensures forall i, j :: 0 <= i < j < |Vowels| ==> Vowels[i] != Vowels[j]
  {
  }

  /**
    `convert_enlish(s)`: the empty word stays empty; a word whose first
    character (ASCII-lowercased) is a consonant moves that character, as
    written, to the end as "-<c>ay"; one starting with a vowel gets "-hay"
    appended; any other word is returned unchanged.
  */
  function Convert(s: string): (r: string)
    ensures s == [] ==> r == []
    ensures s != [] && ToAsciiLowercase(s[0]) in Consonants ==> |r| == |s| + 3 && r[..|s| - 1] == s[1..] && r[|s| - 1..] == ['-', s[0], 'a', 'y']
    ensures s != [] && ToAsciiLowercase(s[0]) in Vowels ==> |r| == |s| + 4 && r[..|s|] == s && r[|s|..] == "-hay"
    ensures s != [] && ToAsciiLowercase(s[0]) !in Consonants + Vowels ==> r == s
  {
    if s == [] then []
    else
      var first := s[0];
      if ToAsciiLowercase(first) in Consonants then s[1..] + ['-', first] + "ay"
      else if ToAsciiLowercase(first) in Vowels then s + "-hay"
      else s
  }

  /** A word is changed exactly when it starts with an ASCII letter, upper- or lowercase. */
  lemma ConvertChangesExactlyLetterWords(s: string)
    ensures Convert(s) != s <==> s != [] && IsAsciiLetter(s[0])
  {
    TablesPartitionLowercase();
    if s != [] {
      var c := ToAsciiLowercase(s[0]);
      assert c in Consonants || c in Vowels <==> 'a' <= c <= 'z';
      assert 'a' <= c <= 'z' <==> IsAsciiLetter(s[0]);
    }
  }

  /** The length grows by 3 for a consonant word, by 4 for a vowel word, and not at all otherwise. */
  lemma ConvertLength(s: string)
    ensures s != [] && IsAsciiLetter(s[0]) && ToAsciiLowercase(s[0]) !in Vowels ==> |Convert(s)| == |s| + 3
    ensures s != [] && ToAsciiLowercase(s[0]) in Vowels ==> |Convert(s)| == |s| + 4
    ensures s == [] || !IsAsciiLetter(s[0]) ==> |Convert(s)| == |s|
  {
    TablesPartitionLowercase();
    if s != [] {
      var c := ToAsciiLowercase(s[0]);
      assert c in Consonants || c in Vowels <==> 'a' <= c <= 'z';
    }
  }

  /** A consonant word can be read back from its Pig Latin form: the moved letter sits three from the end. */
  lemma ConsonantWordRoundTrip(s: string)
    requires s != [] && ToAsciiLowercase(s[0]) in Consonants
    ensures var r := Convert(s); [r[|r| - 3]] + r[..|r| - 4] == s
  {
    var r := Convert(s);
    assert r[|r| - 3] == s[0];
    assert r[..|r| - 4] == s[1..];
  }

  /** The source's own calls: "Michael" becomes "ichael-May" and "Hodge" becomes "odge-Hay". */
  lemma ConvertExamples(a: string, b: string)
    requires a == "Michael" && b == "Hodge"
    ensures Convert(a) == "ichael-May"
    ensures Convert(b) == "odge-Hay"
  {
    assert ToAsciiLowercase('M') == 'm';
    assert ToAsciiLowercase('H') == 'h';
  }
}
