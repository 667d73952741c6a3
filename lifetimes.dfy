/**
  lifetimes/src/main.rs: `longest_with_an_announcement`, which prints an
  announcement and returns the longer of two string slices. Lengths are
  Rust `str::len` lengths, that is UTF-8 byte counts.
*/
module Lifetimes {
  import opened Text

  /**
    Returns `x` when it is strictly longer than `y` in bytes and `y`
    otherwise, so a tie goes to `y`. The announcement `ann` is only printed
    (printing is not modelled) and has no bearing on the result.
  */
  function LongestWithAnAnnouncement<T>(x: string, y: string, ann: T): (r: string)
    ensures r == x || r == y
    ensures Utf8Len(r) >= Utf8Len(x) && Utf8Len(r) >= Utf8Len(y)
    ensures Utf8Len(x) > Utf8Len(y) ==> r == x
    ensures Utf8Len(x) == Utf8Len(y) ==> r == y
  {
    if Utf8Len(x) > Utf8Len(y) then x else y
  }

  /** The announcement never changes the answer, whatever its type. */
  lemma AnnouncementIsIgnored<T, U>(x: string, y: string, a: T, b: U)
    ensures LongestWithAnAnnouncement(x, y, a) == LongestWithAnAnnouncement(x, y, b)
  {
  }

  /** Swapping the arguments changes the answer only when the two have the same byte length and differ. */
  lemma LongestSymmetricUnlessTie<T>(x: string, y: string, ann: T)
    ensures Utf8Len(x) != Utf8Len(y) ==> LongestWithAnAnnouncement(x, y, ann) == LongestWithAnAnnouncement(y, x, ann)
    ensures Utf8Len(x) == Utf8Len(y) ==> LongestWithAnAnnouncement(y, x, ann) == x
  {
  }

  /**
    The comparison is on bytes, not characters: "éé" (two characters, four
    bytes) wins over "abc" (three characters, three bytes).
  */
  lemma BytesNotCharacters(x: string, y: string)
    requires x == "\U{E9}\U{E9}" && y == "abc"
    ensures |x| < |y|
    ensures LongestWithAnAnnouncement(x, y, 0) == x
  {
    assert Utf8Len(x) == 4 by {
      assert x[0] as int == 0xE9 && x[1] as int == 0xE9;
      assert Utf8Len(x[1..][1..]) == 0;
      assert Utf8Len(x[1..]) == 2;
    }
    assert Utf8Len(y) == 3 by {
      Utf8LenBounds(y);
    }
  }

  /** The source's own call: "abcd" against "xyz" gives "abcd". */
  lemma LongestExample(x: string, y: string)
    requires x == "abcd" && y == "xyz"
    ensures LongestWithAnAnnouncement(x, y, "Today is someone's birthday!") == x
  {
    Utf8LenBounds(x);
    Utf8LenBounds(y);
  }
}
