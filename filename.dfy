/** parse_filename: decodes a track file name such as
    "m0500abcfehp050.track" into (initial mass, [Fe/H], alpha). */
module FilenameParser {

  datatype Result<T, E> = Success(value: T) | Failure(error: E)

  /** The key a file name decodes to. */
  datatype TrackKey = TrackKey(mass: real, met: real, alpha: real)

  /** The ways decoding fails: `float('')` on an empty mass or metallicity
      field, and indexing the sign character past the end of the name. */
  datatype ParseError = EmptyMassField | SignPastEnd | EmptyMetField

  const TrackSuffix: string := ".track"
  const MetToken: string := "feh"

  /** True when `pat` occurs in `s` starting at position j. */
  predicate OccursAt(s: string, pat: string, j: nat)
  {
    j + |pat| <= |s| && s[j..j + |pat|] == pat
  }

  /** str.find: the first position of `pat` in `s` at or after i, or -1. */
  function FindFrom(s: string, pat: string, i: nat): (k: int)
    ensures k == -1 <==> forall j :: i <= j ==> !OccursAt(s, pat, j)
    ensures k != -1 ==> i <= k && OccursAt(s, pat, k)
    ensures k != -1 ==> forall j :: i <= j < k ==> !OccursAt(s, pat, j)
    decreases |s| - i
  {
    if i + |pat| > |s| then -1
    else if s[i..i + |pat|] == pat then assert OccursAt(s, pat, i); i
    else FindFrom(s, pat, i + 1)
  }

  function Find(s: string, pat: string): int
  {
    FindFrom(s, pat, 0)
  }

  /** str.replace(pat, ''): removes the occurrences of a non-empty `pat`
      found scanning left to right, without rescanning what remains. */
  function RemoveAll(s: string, pat: string): string
    requires |pat| > 0
    decreases |s|
  {
    if |s| < |pat| then s
    else if s[..|pat|] == pat then RemoveAll(s[|pat|..], pat)
    else [s[0]] + RemoveAll(s[1..], pat)
  }

  /** Removal never lengthens a string, and a string in which the pattern
      does not occur is left as it is. */
  lemma {:induction false} RemoveAllShape(s: string, pat: string)
    requires |pat| > 0
    ensures |RemoveAll(s, pat)| <= |s|
    ensures (forall j: nat :: !OccursAt(s, pat, j)) ==> RemoveAll(s, pat) == s
    decreases |s|
  {
    if |s| < |pat| {
    } else if s[..|pat|] == pat {
      assert OccursAt(s, pat, 0);
      RemoveAllShape(s[|pat|..], pat);
    } else {
      OccursAfterFirst(s, pat);
      RemoveAllShape(s[1..], pat);
      assert [s[0]] + s[1..] == s;
    }
  }

  /** An occurrence in s[1..] is an occurrence in s one position later. */
  lemma OccursAfterFirst(s: string, pat: string)
    requires |s| > 0
    ensures forall j: nat :: OccursAt(s[1..], pat, j) ==> OccursAt(s, pat, j + 1)
  {
    forall j: nat | OccursAt(s[1..], pat, j)
      ensures OccursAt(s, pat, j + 1)
    {
      assert s[1..][j..j + |pat|] == s[j + 1..j + 1 + |pat|];
    }
  }

  /** Python slicing s[lo:hi] for non-negative bounds: both are clamped to
      the length, and a reversed range is empty. */
  function Slice(s: string, lo: nat, hi: nat): string
  {
    var a := if lo < |s| then lo else |s|;
    var b := if hi < |s| then hi else |s|;
    if a <= b then s[a..b] else []
  }

  /** An in-range slice is the sequence slice; otherwise the slice is cut
      at the end of the string, and it is empty from lo >= hi or lo >= |s|. */
  lemma SliceContents(s: string, lo: nat, hi: nat)
    ensures lo <= hi <= |s| ==> Slice(s, lo, hi) == s[lo..hi]
    ensures |Slice(s, lo, hi)|
         == if lo < hi && lo < |s| then (if hi < |s| then hi else |s|) - lo else 0
    ensures forall k :: 0 <= k < |Slice(s, lo, hi)| ==> Slice(s, lo, hi)[k] == s[lo + k]
  {
  }

  predicate IsDigit(c: char)
  {
    '0' <= c <= '9'
  }

  predicate IsDigits(s: string)
  {
    forall i :: 0 <= i < |s| ==> IsDigit(s[i])
  }

  function Pow10(n: nat): (p: nat)
    ensures p >= 1
  {
    if n == 0 then 1 else 10 * Pow10(n - 1)
  }

  /** The value of a string of decimal digits, as `float()` reads it. */
  function DigitsValue(s: string): (v: nat)
    requires IsDigits(s)
    ensures v < Pow10(|s|)
  {
    if s == [] then 0
    else DigitsValue(s[..|s| - 1]) * 10 + (s[|s| - 1] as int - '0' as int)
  }

  /** A field of at most w digits is worth less than 10^w. */
  lemma {:induction false} FieldValueBound(s: string, w: nat)
    requires IsDigits(s) && |s| <= w
    ensures DigitsValue(s) < Pow10(w)
    decreases w
  {
    if |s| < w {
      FieldValueBound(s, w - 1);
    }
  }

  /** The name with every ".track" removed. */
  function Stem(name: string): string
  {
    RemoveAll(name, TrackSuffix)
  }

  /** Where the sign of [Fe/H] is read: just after the first "feh", or at
      position 2 when there is none (find returns -1). */
  function MetIndex(stem: string): nat
  {
    var k := Find(stem, MetToken);
    assert k == -1 || k >= 0;
    k + 3
  }

  /** The sign position is 2 exactly when "feh" does not occur; otherwise
      it is just after the first "feh". */
  lemma MetIndexFirstToken(stem: string)
    ensures MetIndex(stem) == 2 <==> forall j: nat :: !OccursAt(stem, MetToken, j)
    ensures MetIndex(stem) != 2 ==> 3 <= MetIndex(stem) && OccursAt(stem, MetToken, MetIndex(stem) - 3)
    ensures MetIndex(stem) != 2 ==> forall j: nat :: j < MetIndex(stem) - 3 ==> !OccursAt(stem, MetToken, j)
  {
  }

  /** What the model asks of a name: the digit fields the code reads
      consist of ASCII digits, so that `float()` reads them as decimals. */
  predicate DigitFields(name: string)
  {
    var f := Stem(name);
    IsDigits(Slice(f, 1, 5)) && IsDigits(Slice(f, MetIndex(f) + 1, MetIndex(f) + 4))
  }

  /** parse_filename.  The mass is characters 1-4 of the stem divided by
      1000; [Fe/H] is the three characters after the sign character that
      follows the first "feh", divided by 100, negative iff the sign is 'm';
      alpha is always 0. */
  function ParseFilename(name: string): (r: Result<TrackKey, ParseError>)
    requires DigitFields(name)
    ensures r.Success? <==> 2 <= |Stem(name)| && MetIndex(Stem(name)) + 1 < |Stem(name)|
    ensures r == Failure(EmptyMassField) <==> |Stem(name)| <= 1
    ensures r == Failure(SignPastEnd) <==> 2 <= |Stem(name)| <= MetIndex(Stem(name))
    ensures r == Failure(EmptyMetField) <==> 2 <= |Stem(name)| == MetIndex(Stem(name)) + 1
    ensures r.Success? ==> r.value.alpha == 0.0
  {
    var f := Stem(name);
    var massStr := Slice(f, 1, 5);
    if massStr == [] then Failure(EmptyMassField)
    else
      var mass := DigitsValue(massStr) as real / 1000.0;
      var metI := MetIndex(f);
      if metI >= |f| then Failure(SignPastEnd)
      else
        var metSign := if f[metI] == 'm' then -1.0 else 1.0;
        var metStr := Slice(f, metI + 1, metI + 4);
        if metStr == [] then Failure(EmptyMetField)
        else Success(TrackKey(mass, metSign * DigitsValue(metStr) as real / 100.0, 0.0))
  }

  /** Four mass digits and three metallicity digits bound the key:
      0 <= mass <= 9.999 and |[Fe/H]| <= 9.99. */
  lemma ParsedKeyRange(name: string)
    requires DigitFields(name) && ParseFilename(name).Success?
    ensures 0.0 <= ParseFilename(name).value.mass <= 9.999
    ensures -9.99 <= ParseFilename(name).value.met <= 9.99
  {
    var f := Stem(name);
    var massStr := Slice(f, 1, 5);
    var metStr := Slice(f, MetIndex(f) + 1, MetIndex(f) + 4);
    FieldValueBound(massStr, 4);
    FieldValueBound(metStr, 3);
    assert Pow10(3) == 1000 && Pow10(4) == 10000;
    var v := DigitsValue(metStr) as real;
    assert 0.0 <= v <= 999.0;
    assert -1.0 * v / 100.0 >= -9.99;
  }

  /** The decimal digit of d < 10. */
  function DigitChar(d: nat): (c: char)
    requires d < 10
    ensures IsDigit(c) && c as int - '0' as int == d
  {
    ('0' as int + d) as char
  }

  /** n written with exactly `width` digits, zero-padded on the left. */
  function Digits(n: nat, width: nat): (ds: string)
    ensures |ds| == width && IsDigits(ds)
  {
    if width == 0 then [] else Digits(n / 10, width - 1) + [DigitChar(n % 10)]
  }

  /** Reading back a zero-padded field gives the number written. */
  lemma {:induction false} DigitsRoundTrip(n: nat, width: nat)
    requires n < Pow10(width)
    ensures DigitsValue(Digits(n, width)) == n
  {
    if width > 0 {
      DigitsRoundTrip(n / 10, width - 1);
      var ds := Digits(n, width);
      assert ds[..|ds| - 1] == Digits(n / 10, width - 1);
    }
  }

  /** A track file name in the grid's naming scheme: 'm', the mass in
      thousandths of a solar mass as four digits, any separator, "feh", the
      sign character ('m' or 'p') and [Fe/H] x 100 as three digits. */
  function TrackFileName(massMilli: nat, sep: string, negative: bool, metCenti: nat): string
  {
    "m" + Digits(massMilli, 4) + sep + MetToken + (if negative then "m" else "p")
      + Digits(metCenti, 3) + TrackSuffix
  }

  /** Removing ".track" from a name that has no other '.' leaves the rest. */
  lemma {:induction false} RemoveSuffix(p: string)
    requires forall i :: 0 <= i < |p| ==> p[i] != '.'
    ensures RemoveAll(p + TrackSuffix, TrackSuffix) == p
    decreases |p|
  {
    if p != [] {
      var s := p + TrackSuffix;
      assert s[..|TrackSuffix|] != TrackSuffix by {
        assert s[0] == p[0] != '.';
      }
      assert s[1..] == p[1..] + TrackSuffix;
      RemoveSuffix(p[1..]);
      assert [p[0]] + p[1..] == p;
    } else {
      assert p + TrackSuffix == TrackSuffix;
      assert TrackSuffix[|TrackSuffix|..] == [];
    }
  }

  /** In p + "feh" + rest with no "feh" starting inside p, the first "feh"
      is at |p|. */
  lemma FirstMetToken(p: string, rest: string)
    requires forall j: nat :: j < |p| ==> !OccursAt(p + MetToken + rest, MetToken, j)
    ensures Find(p + MetToken + rest, MetToken) == |p|
  {
    var s := p + MetToken + rest;
    assert OccursAt(s, MetToken, |p|) by {
      assert s[|p|..|p| + 3] == MetToken;
    }
  }

  /** The name without its suffix. */
  function StemOf(md: string, sep: string, signChar: char, ed: string): string
  {
    "m" + md + sep + MetToken + [signChar] + ed
  }

  /** A separator the naming scheme allows: no '.' (so ".track" occurs
      only at the end) and no "feh" starting inside it (so the first "feh"
      is the one that follows it). */
  predicate PlainSeparator(sep: string)
  {
    && (forall i :: 0 <= i < |sep| ==> sep[i] != '.')
    && (forall j: nat :: j < |sep| ==> !OccursAt(sep + MetToken, MetToken, j))
  }

  /** A separator with neither '.' nor 'f' is plain, since every "feh"
      starts with an 'f'. */
  lemma SeparatorWithoutF(sep: string)
    requires forall i :: 0 <= i < |sep| ==> sep[i] != '.' && sep[i] != 'f'
    ensures PlainSeparator(sep)
  {
    forall j: nat | j < |sep|
      ensures !OccursAt(sep + MetToken, MetToken, j)
    {
      assert (sep + MetToken)[j] == sep[j];
    }
  }

  lemma {:induction false} StemOfFields(md: string, sep: string, signChar: char, ed: string)
    requires IsDigits(md) && PlainSeparator(sep) && IsDigits(ed) && signChar != '.'
    ensures Stem(StemOf(md, sep, signChar, ed) + TrackSuffix) == StemOf(md, sep, signChar, ed)
  {
    var stem := StemOf(md, sep, signChar, ed);
    var k := 1 + |md| + |sep|;
    forall i | 0 <= i < |stem|
      ensures stem[i] != '.'
    {
      if 0 < i < 1 + |md| {
        assert stem[i] == md[i - 1];
      } else if 1 + |md| <= i < k {
        assert stem[i] == sep[i - 1 - |md|];
      } else if i >= k + 4 {
        assert stem[i] == ed[i - k - 4];
      } else if i >= k {
        assert stem[i] == (MetToken + [signChar])[i - k];
      }
    }
    RemoveSuffix(stem);
  }

  lemma MetIndexOfStem(md: string, sep: string, signChar: char, ed: string)
    requires IsDigits(md) && PlainSeparator(sep)
    ensures MetIndex(StemOf(md, sep, signChar, ed)) == 1 + |md| + |sep| + 3
  {
    var head := "m" + md + sep;
    var stem := StemOf(md, sep, signChar, ed);
    assert stem == head + MetToken + ([signChar] + ed);
    forall j: nat | j < |head|
      ensures !OccursAt(stem, MetToken, j)
    {
      if j < 1 + |md| {
        assert stem[j] == (if j == 0 then 'm' else md[j - 1]);
      } else {
        var q := j - 1 - |md|;
        assert !OccursAt(sep + MetToken, MetToken, q);
        assert stem[j..j + 3] == (sep + MetToken)[q..q + 3];
      }
    }
    FirstMetToken(head, [signChar] + ed);
  }

  lemma FieldsOfStem(md: string, sep: string, signChar: char, ed: string)
    requires |md| == 4 && |ed| == 3
    ensures Slice(StemOf(md, sep, signChar, ed), 1, 5) == md
    ensures StemOf(md, sep, signChar, ed)[|sep| + 8] == signChar
    ensures Slice(StemOf(md, sep, signChar, ed), |sep| + 9, |sep| + 12) == ed
  {
    var stem := StemOf(md, sep, signChar, ed);
    assert stem == "m" + md + (sep + MetToken + [signChar]) + ed;
  }

  /** The value ParseFilename gives once the stem is known to hold both
      fields. */
  lemma ParseOfFields(name: string, f: string, metI: nat, md: string, signChar: char, ed: string)
    requires DigitFields(name) && f == Stem(name) && metI == MetIndex(f)
    requires 2 <= |f| && metI + 1 < |f|
    requires Slice(f, 1, 5) == md && f[metI] == signChar && Slice(f, metI + 1, metI + 4) == ed
    ensures ParseFilename(name)
         == Success(TrackKey(DigitsValue(md) as real / 1000.0,
                             (if signChar == 'm' then -1.0 else 1.0) * DigitsValue(ed) as real / 100.0,
                             0.0))
  {
    assert |md| > 0 && |ed| > 0;
  }

  /** Decoding a name assembled from a four-digit mass field, a plain
      separator, "feh", a sign character and a three-digit field reads the
      fields back. */
  lemma ParseFields(md: string, sep: string, signChar: char, ed: string)
    requires |md| == 4 && IsDigits(md) && |ed| == 3 && IsDigits(ed)
    requires PlainSeparator(sep) && signChar != '.'
    ensures DigitFields(StemOf(md, sep, signChar, ed) + TrackSuffix)
    ensures ParseFilename(StemOf(md, sep, signChar, ed) + TrackSuffix)
         == Success(TrackKey(DigitsValue(md) as real / 1000.0,
                             (if signChar == 'm' then -1.0 else 1.0) * DigitsValue(ed) as real / 100.0,
                             0.0))
  {
    var stem := StemOf(md, sep, signChar, ed);
    var name := stem + TrackSuffix;
    StemOfFields(md, sep, signChar, ed);
    MetIndexOfStem(md, sep, signChar, ed);
    FieldsOfStem(md, sep, signChar, ed);
    var metI := |sep| + 8;
    assert DigitFields(name);
    ParseOfFields(name, stem, metI, md, signChar, ed);
  }

  /** Decoding inverts the naming scheme: for a separator with no '.' and
      no "feh" of its own, the name of (mass/1000, +-[Fe/H]/100) parses back to exactly
      that key with alpha 0. */
  lemma ParseTrackFileName(massMilli: nat, sep: string, negative: bool, metCenti: nat)
    requires massMilli < 10000 && metCenti < 1000
    requires PlainSeparator(sep)
    ensures DigitFields(TrackFileName(massMilli, sep, negative, metCenti))
    ensures ParseFilename(TrackFileName(massMilli, sep, negative, metCenti))
         == Success(TrackKey(massMilli as real / 1000.0,
                             (if negative then -1.0 else 1.0) * metCenti as real / 100.0,
                             0.0))
  {
    var md := Digits(massMilli, 4);
    var ed := Digits(metCenti, 3);
    var signChar := if negative then 'm' else 'p';
    NameOfStem(massMilli, sep, negative, metCenti);
    ParseFields(md, sep, signChar, ed);
    KeyOfDigits(massMilli, negative, metCenti);
  }

  /** The key ParseFields reads from the written digits is the key written. */
  lemma KeyOfDigits(massMilli: nat, negative: bool, metCenti: nat)
    requires massMilli < 10000 && metCenti < 1000
    ensures TrackKey(DigitsValue(Digits(massMilli, 4)) as real / 1000.0,
                     (if (if negative then 'm' else 'p') == 'm' then -1.0 else 1.0)
                       * DigitsValue(Digits(metCenti, 3)) as real / 100.0,
                     0.0)
         == TrackKey(massMilli as real / 1000.0,
                     (if negative then -1.0 else 1.0) * metCenti as real / 100.0,
                     0.0)
  {
    assert Pow10(3) == 1000 && Pow10(4) == 10000;
    DigitsRoundTrip(massMilli, 4);
    DigitsRoundTrip(metCenti, 3);
  }

  lemma NameOfStem(massMilli: nat, sep: string, negative: bool, metCenti: nat)
    ensures TrackFileName(massMilli, sep, negative, metCenti)
         == StemOf(Digits(massMilli, 4), sep, if negative then 'm' else 'p', Digits(metCenti, 3)) + TrackSuffix
  {
  }

  lemma DigitsOf500()
    ensures Digits(500, 4) == "0500" && Digits(50, 3) == "050"
  {
    assert Digits(0, 1) == "0";
    assert Digits(5, 2) == "05";
  }

  lemma DigitsOf1200()
    ensures Digits(1200, 4) == "1200" && Digits(30, 3) == "030"
  {
    assert Digits(1, 1) == "1";
    assert Digits(12, 2) == "12";
    assert Digits(120, 3) == "120";
    assert Digits(0, 1) == "0";
    assert Digits(3, 2) == "03";
  }

  /** The example names are names of the scheme. */
  lemma ExampleNameSolar()
    ensures TrackFileName(500, "abc", false, 50) == "m0500abcfehp050.track"
  {
    DigitsOf500();
  }

  lemma ExampleNameMetalPoor()
    ensures TrackFileName(1200, "xx", true, 30) == "m1200xxfehm030.track"
  {
    DigitsOf1200();
  }

  /** m0500abcfehp050.track decodes to mass 0.5, [Fe/H] +0.5, alpha 0. */
  lemma ParseSolarExample(name: string)
    requires name == "m0500abcfehp050.track"
    ensures DigitFields(name) && ParseFilename(name) == Success(TrackKey(0.5, 0.5, 0.0))
  {
    SeparatorWithoutF("abc");
    ParseTrackFileName(500, "abc", false, 50);
    ExampleNameSolar();
  }

  /** m1200xxfehm030.track decodes to mass 1.2, [Fe/H] -0.3, alpha 0. */
  lemma ParseMetalPoorExample(name: string)
    requires name == "m1200xxfehm030.track"
    ensures DigitFields(name) && ParseFilename(name) == Success(TrackKey(1.2, -0.3, 0.0))
  {
    SeparatorWithoutF("xx");
    ParseTrackFileName(1200, "xx", true, 30);
    ExampleNameMetalPoor();
  }

  /** A name whose stem ends with the sign character has an empty [Fe/H]
      field, and `float('')` fails on it. */
  lemma SignWithoutDigits(md: string, sep: string, signChar: char)
    requires |md| == 4 && IsDigits(md) && PlainSeparator(sep) && signChar != '.'
    ensures DigitFields(StemOf(md, sep, signChar, "") + TrackSuffix)
    ensures ParseFilename(StemOf(md, sep, signChar, "") + TrackSuffix) == Failure(EmptyMetField)
  {
    var stem := StemOf(md, sep, signChar, "");
    StemOfFields(md, sep, signChar, "");
    MetIndexOfStem(md, sep, signChar, "");
    assert stem == "m" + md + (sep + MetToken + [signChar]);
    assert Slice(stem, 1, 5) == md;
  }

  /** m0500fehp.track fails on its empty [Fe/H] field. */
  lemma EmptyMetFieldExample(name: string)
    requires name == "m0500fehp.track"
    ensures DigitFields(name) && ParseFilename(name) == Failure(EmptyMetField)
  {
    SignWithoutDigits("0500", "", 'p');
    assert StemOf("0500", "", 'p', "") + TrackSuffix == name;
  }

  /** A name with no "feh" is not rejected: the sign is read at position 2
      and [Fe/H] from positions 3-5, that is, from the mass digits and the
      character after them. */
  lemma MissingTokenFallback(name: string)
    requires DigitFields(name)
    requires Find(Stem(name), MetToken) == -1
    requires 4 <= |Stem(name)|
    ensures ParseFilename(name).Success?
    ensures ParseFilename(name).value.met == DigitsValue(Slice(Stem(name), 3, 6)) as real / 100.0
  {
    var f := Stem(name);
    assert MetIndex(f) == 2;
    assert f[2] == Slice(f, 1, 5)[1];
    ParseOfFields(name, f, 2, Slice(f, 1, 5), f[2], Slice(f, 3, 6));
  }
}
