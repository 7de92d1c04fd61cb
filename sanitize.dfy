/** `sanitize_filename` (yuque.py:16-42): turns a document or knowledge-base
    title into a file-name component. Each of nine characters forbidden on
    Windows or Unix becomes `_`, surrounding whitespace is stripped, an empty
    result becomes "untitled_document", and the name is cut to 200 characters.
    The strip happens before the cut, so a cut that ends in whitespace keeps
    that whitespace. */
module Sanitize {
  import opened Text

  const InvalidChars: seq<char> := ['/', '\\', ':', '*', '?', '"', '<', '>', '|']
  const Replacement: char := '_'
  const Fallback: string := "untitled_document"
  const MaxLength: nat := 200

  predicate Invalid(c: char) {
    c in InvalidChars
  }

  /** `s.replace(c, with)` for a single character `c`. */
  function ReplaceChar(s: string, c: char, with: char): (r: string)
    ensures |r| == |s|
    ensures forall i :: 0 <= i < |s| ==> r[i] == (if s[i] == c then with else s[i])
  {
    if s == [] then [] else [if s[0] == c then with else s[0]] + ReplaceChar(s[1..], c, with)
  }

  /** The source's loop: one `replace(char, '_')` per forbidden character, in order. */
  function ReplaceEach(s: string, chars: seq<char>): string
    decreases chars
  {
    if chars == [] then s else ReplaceEach(ReplaceChar(s, chars[0], Replacement), chars[1..])
  }

  /** The sequence of single-character replacements is the same as replacing,
      position by position, every character of the set at once. */
  lemma {:induction false} ReplaceEachPointwise(s: string, chars: seq<char>)
    ensures |ReplaceEach(s, chars)| == |s|
    ensures forall i :: 0 <= i < |s| ==>
      ReplaceEach(s, chars)[i] == (if s[i] in chars then Replacement else s[i])
    decreases chars
  {
    if chars != [] {
      var s1 := ReplaceChar(s, chars[0], Replacement);
      ReplaceEachPointwise(s1, chars[1..]);
      forall i | 0 <= i < |s|
        ensures ReplaceEach(s, chars)[i] == (if s[i] in chars then Replacement else s[i])
      {
        assert s[i] in chars <==> s[i] == chars[0] || s[i] in chars[1..];
      }
    }
  }

  /** Every forbidden character replaced at once, position by position. */
  function ReplaceInvalid(s: string): (r: string)
    ensures |r| == |s|
    ensures forall i :: 0 <= i < |s| ==> r[i] == (if Invalid(s[i]) then Replacement else s[i])
  {
    if s == [] then [] else [if Invalid(s[0]) then Replacement else s[0]] + ReplaceInvalid(s[1..])
  }

  /** The source's nine `replace` calls in a row give the single pass. */
  lemma ReplaceEachIsReplaceInvalid(s: string)
    ensures ReplaceEach(s, InvalidChars) == ReplaceInvalid(s)
  {
    ReplaceEachPointwise(s, InvalidChars);
  }

  /** `s.lstrip()` */
  function StripLeft(s: string): (r: string)
    ensures |r| <= |s| && r == s[|s| - |r|..]
    ensures r == [] || !IsSpace(r[0])
    ensures forall i :: 0 <= i < |s| - |r| ==> IsSpace(s[i])
  {
    if s != [] && IsSpace(s[0]) then StripLeft(s[1..]) else s
  }

  /** `s.rstrip()` */
  function StripRight(s: string): (r: string)
    ensures |r| <= |s| && r == s[..|r|]
    ensures r == [] || !IsSpace(r[|r| - 1])
    ensures forall i :: |r| <= i < |s| ==> IsSpace(s[i])
  {
    if s != [] && IsSpace(s[|s| - 1]) then StripRight(s[..|s| - 1]) else s
  }

  /** `s.strip()`: the result keeps only characters of `s`, begins and ends
      with a non-whitespace character, and is empty exactly when `s` is all
      whitespace. */
  function Strip(s: string): (r: string)
    ensures r == [] || (!IsSpace(r[0]) && !IsSpace(r[|r| - 1]))
    ensures |r| <= |s| - StripOffset(s) && r == s[StripOffset(s)..StripOffset(s) + |r|]
  {
    StripRight(StripLeft(s))
  }

  /** Where the stripped text starts in `s`. */
  function StripOffset(s: string): nat {
    |s| - |StripLeft(s)|
  }

  /** Strip removes only whitespace, and gives the empty string exactly when
      `s` is all whitespace. */
  lemma StripRemovesOnlySpace(s: string)
    ensures forall i :: 0 <= i < StripOffset(s) ==> IsSpace(s[i])
    ensures forall i :: StripOffset(s) + |Strip(s)| <= i < |s| ==> IsSpace(s[i])
    ensures Strip(s) == [] <==> forall i :: 0 <= i < |s| ==> IsSpace(s[i])
  {
    var left := StripLeft(s);
    var k := StripOffset(s);
    assert forall i :: k <= i < |s| ==> s[i] == left[i - k];
  }

  /** Strip leaves alone a string with no whitespace at either end. */
  lemma StripTrimmed(s: string)
    requires s == [] || (!IsSpace(s[0]) && !IsSpace(s[|s| - 1]))
    ensures Strip(s) == s
  {
  }

  /** The title after replacement and stripping, before the fallback and the
      cut; the replacement is the single pass, which ReplaceEachIsReplaceInvalid
      shows equal to the source's loop. */
  function Cleaned(title: string): string {
    Strip(ReplaceInvalid(title))
  }

  /** Neither the cleaned title nor the fallback holds a forbidden character. */
  lemma CleanedValid(title: string)
    ensures forall i :: 0 <= i < |Cleaned(title)| ==> !Invalid(Cleaned(title)[i])
  {
    var replaced := ReplaceInvalid(title);
    ReplacedValid(title);
    StripInfix(replaced);
  }

  lemma ReplacedValid(title: string)
    ensures forall i :: 0 <= i < |ReplaceInvalid(title)| ==> !Invalid(ReplaceInvalid(title)[i])
  {
    assert !Invalid(Replacement);
  }

  /** Replacement neither creates nor removes whitespace. */
  lemma ReplacedSpaces(title: string)
    ensures |ReplaceInvalid(title)| == |title|
    ensures forall i :: 0 <= i < |title| ==> (IsSpace(ReplaceInvalid(title)[i]) <==> IsSpace(title[i]))
  {
    var replaced := ReplaceInvalid(title);
    forall i | 0 <= i < |title|
      ensures IsSpace(replaced[i]) <==> IsSpace(title[i])
    {
      if title[i] in InvalidChars {
        assert replaced[i] == Replacement;
        assert !IsSpace(title[i]);
      } else {
        assert replaced[i] == title[i];
      }
    }
  }

  lemma StripInfix(s: string)
    ensures forall i :: 0 <= i < |Strip(s)| ==> Strip(s)[i] == s[StripOffset(s) + i]
  {
  }

  lemma FallbackValid()
    ensures forall i :: 0 <= i < |Fallback| ==> !Invalid(Fallback[i])
  {
  }

  /** The cleaned title, or the fallback name when nothing is left. */
  function Named(title: string): (r: string)
    ensures 0 < |r| && !IsSpace(r[0])
    ensures forall i :: 0 <= i < |r| ==> !Invalid(r[i])
  {
    CleanedValid(title);
    FallbackValid();
    var cleaned := Cleaned(title);
    if cleaned == [] then Fallback else cleaned
  }

  function SanitizeFilename(title: string): (r: string)
    ensures 0 < |r| <= MaxLength
    ensures forall i :: 0 <= i < |r| ==> !Invalid(r[i])
    ensures !IsSpace(r[0])
  {
    var named := Named(title);
    if |named| > MaxLength then named[..MaxLength] else named
  }

  /** The cleaned title is empty exactly when the title is blank: the
      replacement `_` is not whitespace. */
  lemma CleanedEmptyIff(title: string)
    ensures Cleaned(title) == [] <==> forall i :: 0 <= i < |title| ==> IsSpace(title[i])
  {
    var replaced := ReplaceInvalid(title);
    ReplacedSpaces(title);
    StripRemovesOnlySpace(replaced);
  }

  /** The result is the fallback name exactly when the title is blank or
      already cleans to the fallback name itself. */
  lemma SanitizeFallbackIff(title: string)
    ensures SanitizeFilename(title) == Fallback <==>
      (forall i :: 0 <= i < |title| ==> IsSpace(title[i])) || Cleaned(title) == Fallback
  {
    CleanedEmptyIff(title);
    var cleaned := Cleaned(title);
    if cleaned != [] && |cleaned| > MaxLength {
      assert |SanitizeFilename(title)| == MaxLength != |Fallback|;
    }
  }

  /** Replacement leaves a string without forbidden characters alone. */
  lemma ReplaceKeepsValid(s: string)
    requires forall i :: 0 <= i < |s| ==> !Invalid(s[i])
    ensures ReplaceInvalid(s) == s
  {
  }

  /** Right-stripping keeps a first character that is not whitespace. */
  lemma {:induction false} StripRightKeepsFirst(s: string)
    requires s != [] && !IsSpace(s[0])
    ensures StripRight(s) != []
  {
    if IsSpace(s[|s| - 1]) {
      StripRightKeepsFirst(s[..|s| - 1]);
    }
  }

  /** A name that is already valid, trimmed and short enough comes back unchanged. */
  lemma SanitizeKeepsValidName(name: string)
    requires 0 < |name| <= MaxLength
    requires forall i :: 0 <= i < |name| ==> !Invalid(name[i])
    requires !IsSpace(name[0]) && !IsSpace(name[|name| - 1])
    ensures SanitizeFilename(name) == name
  {
    ReplaceKeepsValid(name);
    StripTrimmed(name);
  }

  /** Sanitizing twice changes nothing exactly when the first result does not
      end in whitespace. It can end in whitespace only when the 200-character
      cut lands just after a space, because the strip comes before the cut. */
  lemma SanitizeIdempotentIff(title: string)
    ensures var r := SanitizeFilename(title);
      SanitizeFilename(r) == r <==> !IsSpace(r[|r| - 1])
  {
    var r := SanitizeFilename(title);
    if !IsSpace(r[|r| - 1]) {
      SanitizeKeepsValidName(r);
    } else {
      SanitizeDropsTrailingSpace(r);
    }
  }

  /** A valid name that ends in whitespace loses it on the next pass. */
  lemma SanitizeDropsTrailingSpace(r: string)
    requires 0 < |r| <= MaxLength
    requires forall i :: 0 <= i < |r| ==> !Invalid(r[i])
    requires !IsSpace(r[0]) && IsSpace(r[|r| - 1])
    ensures |SanitizeFilename(r)| < |r|
  {
    ReplaceKeepsValid(r);
    assert StripLeft(r) == r;
    var right := StripRight(r);
    assert right == StripRight(r[..|r| - 1]);
    StripRightKeepsFirst(r);
    assert Cleaned(r) == right;
    assert SanitizeFilename(r) == right by {
      assert right != [] && |right| < |r| <= MaxLength;
    }
  }

  /** A title of 199 letters, a space and a letter: the cut keeps the space,
      and a second pass strips it. */
  lemma SanitizeNotIdempotentWitness()
    ensures var title := seq(199, _ => 'a') + [' ', 'b'];
      SanitizeFilename(title) == seq(199, _ => 'a') + [' '] &&
      SanitizeFilename(SanitizeFilename(title)) != SanitizeFilename(title)
  {
    var title := seq(199, _ => 'a') + [' ', 'b'];
    assert ReplaceInvalid(title) == title;
    StripTrimmed(title);
    assert title[..MaxLength] == seq(199, _ => 'a') + [' '];
    SanitizeIdempotentIff(title);
  }
}
