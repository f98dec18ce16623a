/** The JavaScript string operations the chat responder is built from —
    toLowerCase, replace of the punctuation class, includes, trim and the
    length property — written out on `string` (sequences of Unicode scalar
    values). */
module Text {

  /** Lower-case mapping of one character. Concrete for ASCII A-Z, for the
      Cyrillic capitals U+0410..U+042F (А..Я), for U+0400..U+040F (which hold
      the Ukrainian Є and the Ukrainian/Belarusian І and Ї) and for the
      Ukrainian Ґ; every other character is its own lower case. */
  function Lower(c: char): char
  {
    if 'A' <= c <= 'Z' then (c as int + 32) as char
    else if '\U{0410}' <= c <= '\U{042F}' then (c as int + 32) as char
    else if '\U{0400}' <= c <= '\U{040F}' then (c as int + 80) as char
    else if c == '\U{0490}' then '\U{0491}'
    else c
  }

  /** String.prototype.toLowerCase, character by character: the result has
      the length of the input and holds the lower case of each character. */
  function ToLower(s: string): (r: string)
    ensures |r| == |s|
    ensures forall i {:trigger r[i]} :: 0 <= i < |s| ==> r[i] == Lower(s[i])
  {
    if s == [] then [] else [Lower(s[0])] + ToLower(s[1..])
  }

  /** The four punctuation characters of the class `[?!.,]`, each of which
      normalisation replaces by a space. */
  predicate IsPunctuation(c: char)
  {
    c == '?' || c == '!' || c == '.' || c == ','
  }

  /** `s.replace(/[?!.,]/g, " ")`: every `?`, `!`, `.` and `,` becomes a
      space, every other character stays where it is. */
  function Normalize(s: string): (r: string)
    ensures |r| == |s|
    ensures forall i {:trigger r[i]} :: 0 <= i < |s| ==> r[i] == if IsPunctuation(s[i]) then ' ' else s[i]
  {
    if s == [] then []
    else [if IsPunctuation(s[0]) then ' ' else s[0]] + Normalize(s[1..])
  }

  /** A string with none of `?!.,` in it is left alone by normalisation. */
  lemma NormalizeKeeps(s: string)
    requires forall k :: 0 <= k < |s| ==> !IsPunctuation(s[k])
    ensures Normalize(s) == s
  {
  }

  /** `needle` occurs in `text` starting at index `i`. */
  ghost predicate OccursAt(text: string, needle: string, i: int)
  {
    0 <= i && i + |needle| <= |text| && text[i..i + |needle|] == needle
  }

  /** `needle` is a substring of `text` (reference definition). */
  ghost predicate Occurs(text: string, needle: string)
  {
    exists i :: OccursAt(text, needle, i)
  }

  /** `text` begins with `needle`, compared character by character. */
  function StartsWith(text: string, needle: string): bool
  {
    needle == [] || (text != [] && text[0] == needle[0] && StartsWith(text[1..], needle[1..]))
  }

  /** The character-by-character comparison decides the prefix relation. */
  lemma {:induction false} StartsWithIffPrefix(text: string, needle: string)
    ensures StartsWith(text, needle) <==> needle <= text
  {
    if needle != [] && text != [] {
      StartsWithIffPrefix(text[1..], needle[1..]);
      assert needle == [needle[0]] + needle[1..] && text == [text[0]] + text[1..];
    }
  }

  /** String.prototype.includes: try each start position from the left. */
  function Includes(text: string, needle: string): bool
    decreases |text|
  {
    StartsWith(text, needle) || (|needle| < |text| && Includes(text[1..], needle))
  }

  /** The left-to-right scan answers exactly the substring question. */
  lemma {:induction false} IncludesIffOccurs(text: string, needle: string)
    ensures Includes(text, needle) <==> Occurs(text, needle)
    decreases |text|
  {
    StartsWithIffPrefix(text, needle);
    if needle <= text {
      assert OccursAt(text, needle, 0);
    } else if |needle| < |text| {
      IncludesIffOccurs(text[1..], needle);
      if Occurs(text[1..], needle) {
        var i :| OccursAt(text[1..], needle, i);
        assert text[1..][i..i + |needle|] == text[i + 1..i + 1 + |needle|];
        assert OccursAt(text, needle, i + 1);
      }
      assert !OccursAt(text, needle, 0);
      forall i | OccursAt(text, needle, i)
        ensures OccursAt(text[1..], needle, i - 1)
      {
        assert text[1..][i - 1..i - 1 + |needle|] == text[i..i + |needle|];
      }
    } else {
      assert !OccursAt(text, needle, 0);
    }
  }

  /** The characters String.prototype.trim removes: the WhiteSpace and
      LineTerminator code points of ECMAScript (tab, vertical tab, form feed,
      space, no-break space, the byte-order mark, every Unicode space
      separator, line feed, carriage return, line and paragraph separator). */
  predicate IsWhiteSpace(c: char)
  {
    c == '\t' || c == '\n' || c == '\U{000B}' || c == '\U{000C}' || c == '\r'
    || c == ' ' || c == '\U{00A0}' || c == '\U{1680}'
    || ('\U{2000}' <= c <= '\U{200A}')
    || c == '\U{2028}' || c == '\U{2029}' || c == '\U{202F}' || c == '\U{205F}'
    || c == '\U{3000}' || c == '\U{FEFF}'
  }

  /** Number of white-space characters at the start of `s`. */
  function LeadingSpace(s: string): (n: nat)
    ensures n <= |s|
    ensures forall i :: 0 <= i < n ==> IsWhiteSpace(s[i])
    ensures n < |s| ==> !IsWhiteSpace(s[n])
  {
    if s != [] && IsWhiteSpace(s[0]) then 1 + LeadingSpace(s[1..]) else 0
  }

  /** Number of white-space characters at the end of `s`. */
  function TrailingSpace(s: string): (n: nat)
    ensures n <= |s|
    ensures forall i :: |s| - n <= i < |s| ==> IsWhiteSpace(s[i])
    ensures n < |s| ==> !IsWhiteSpace(s[|s| - 1 - n])
  {
    if s != [] && IsWhiteSpace(s[|s| - 1]) then 1 + TrailingSpace(s[..|s| - 1]) else 0
  }

  /** String.prototype.trim: drop the leading and the trailing white space. */
  function Trim(s: string): string
  {
    var a := LeadingSpace(s);
    if a == |s| then [] else s[a..|s| - TrailingSpace(s)]
  }

  /** What trimming keeps: the slice of `s` that starts where its leading
      white space ends, outside of which there is only white space;
      it is empty exactly when `s` is all white space, and otherwise starts
      and ends with a character that is not. */
  lemma TrimSpec(s: string)
    ensures OccursAt(s, Trim(s), LeadingSpace(s))
    ensures forall i :: 0 <= i < |s| && !(LeadingSpace(s) <= i < LeadingSpace(s) + |Trim(s)|) ==> IsWhiteSpace(s[i])
    ensures Trim(s) == [] <==> forall i :: 0 <= i < |s| ==> IsWhiteSpace(s[i])
    ensures Trim(s) != [] ==> !IsWhiteSpace(Trim(s)[0]) && !IsWhiteSpace(Trim(s)[|Trim(s)| - 1])
  {
    var a, t := LeadingSpace(s), TrailingSpace(s);
    if a < |s| {
      assert !IsWhiteSpace(s[a]);
      assert a < |s| - t;
      var r := s[a..|s| - t];
      assert Trim(s) == r;
      assert r[0] == s[a] && r[|r| - 1] == s[|s| - 1 - t];
      assert Trim(s) != [];
      assert !(forall i :: 0 <= i < |s| ==> IsWhiteSpace(s[i]));
    } else {
      assert Trim(s) == [];
      assert forall i :: 0 <= i < |s| ==> IsWhiteSpace(s[i]);
    }
  }

  /** `s` is not empty and neither begins nor ends with white space: the
      shape of what `Trim` returns for an input that is not blank. */
  predicate IsTrimmed(s: string)
  {
    s != [] && !IsWhiteSpace(s[0]) && !IsWhiteSpace(s[|s| - 1])
  }

  /** Trimming a string that is not blank gives a trimmed string, and a
      trimmed string is left as it is: trimming is idempotent. */
  lemma TrimIdempotent(s: string)
    ensures Trim(s) != [] ==> IsTrimmed(Trim(s))
    ensures IsTrimmed(s) ==> Trim(s) == s
    ensures Trim(Trim(s)) == Trim(s)
  {
    var r := Trim(s);
    TrimSpec(s);
    if r != [] {
      assert LeadingSpace(r) == 0;
      assert TrailingSpace(r) == 0;
    }
    if IsTrimmed(s) {
      assert LeadingSpace(s) == 0;
      assert TrailingSpace(s) == 0;
    }
  }

  /** The `length` JavaScript reports: UTF-16 code units, one for a
      character of the Basic Multilingual Plane and two for any other. */
  function CodeUnits(s: string): (n: nat)
    ensures |s| <= n <= 2 * |s|
    ensures n == |s| <==> forall i :: 0 <= i < |s| ==> s[i] as int < 0x1_0000
  {
    if s == [] then 0
    else (if s[0] as int < 0x1_0000 then 1 else 2) + CodeUnits(s[1..])
  }

  /** Lower-casing never changes the JavaScript length of a string. */
  lemma {:induction false} ToLowerKeepsCodeUnits(s: string)
    ensures CodeUnits(ToLower(s)) == CodeUnits(s)
  {
    if s != [] {
      ToLowerKeepsCodeUnits(s[1..]);
      assert ToLower(s)[1..] == ToLower(s[1..]);
    }
  }
}
