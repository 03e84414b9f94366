/**
 * `clean_text` of Gmail_access.py: turns arbitrary text into a string that is safe
 * to use as a file name by keeping alphanumeric characters and replacing every
 * other character with an underscore.
 *
 * Python's `str.isalnum` consults the Unicode character database, which is not
 * part of this model; it is the parameter `isAlnum`.
 */
module Filenames {

  /** The image of one character under `clean_text`. */
  function CleanChar(c: char, isAlnum: char -> bool): char {
    if isAlnum(c) then c else '_'
  }

  /** `clean_text(text)`: the characters of `text`, each mapped by `CleanChar`, joined. */
  function CleanText(text: string, isAlnum: char -> bool): (r: string)
    ensures |r| == |text|
  {
    if |text| == 0 then "" else [CleanChar(text[0], isAlnum)] + CleanText(text[1..], isAlnum)
  }

  /** Position by position, an alphanumeric character is kept and any other becomes '_'. */
  lemma {:induction false} CleanTextAt(text: string, isAlnum: char -> bool, i: nat)
    requires i < |text|
    ensures isAlnum(text[i]) ==> CleanText(text, isAlnum)[i] == text[i]
    ensures !isAlnum(text[i]) ==> CleanText(text, isAlnum)[i] == '_'
  {
    if i > 0 {
      CleanTextAt(text[1..], isAlnum, i - 1);
    }
  }

  /** Every character of the result is alphanumeric or an underscore. */
  lemma {:induction false} CleanTextAlphabet(text: string, isAlnum: char -> bool)
    ensures forall i :: 0 <= i < |CleanText(text, isAlnum)| ==>
      isAlnum(CleanText(text, isAlnum)[i]) || CleanText(text, isAlnum)[i] == '_'
  {
    forall i | 0 <= i < |CleanText(text, isAlnum)|
      ensures isAlnum(CleanText(text, isAlnum)[i]) || CleanText(text, isAlnum)[i] == '_'
    {
      CleanTextAt(text, isAlnum, i);
    }
  }

  /** Cleaning a string that is already clean changes nothing. */
  lemma {:induction false} CleanTextIdempotent(text: string, isAlnum: char -> bool)
    ensures CleanText(CleanText(text, isAlnum), isAlnum) == CleanText(text, isAlnum)
  {
    var once := CleanText(text, isAlnum);
    forall i | 0 <= i < |once|
      ensures CleanText(once, isAlnum)[i] == once[i]
    {
      CleanTextAt(text, isAlnum, i);
      CleanTextAt(once, isAlnum, i);
    }
  }

  /** The strings `clean_text` leaves unchanged are exactly those made of alphanumerics and underscores. */
  lemma {:induction false} CleanTextFixedPoints(text: string, isAlnum: char -> bool)
    ensures CleanText(text, isAlnum) == text <==>
      forall i :: 0 <= i < |text| ==> isAlnum(text[i]) || text[i] == '_'
  {
    forall i | 0 <= i < |text| {
      CleanTextAt(text, isAlnum, i);
    }
  }

  /** Cleaning works character by character, so it distributes over concatenation. */
  lemma {:induction false} CleanTextAppend(a: string, b: string, isAlnum: char -> bool)
    ensures CleanText(a + b, isAlnum) == CleanText(a, isAlnum) + CleanText(b, isAlnum)
  {
    if |a| == 0 {
      assert a + b == b;
    } else {
      assert (a + b)[1..] == a[1..] + b;
      CleanTextAppend(a[1..], b, isAlnum);
    }
  }
}
