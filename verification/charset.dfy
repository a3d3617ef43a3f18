/**
 * The brute-force charset: the checked preset groups in a fixed order, then
 * every custom character that is not yet present.
 */
module Charset {
  import opened Enumeration

  /** The characters with codes `lo` through `hi`, ascending. */
  function CodeRange(lo: nat, hi: nat): (r: string)
    requires hi < 128
    ensures |r| == if lo <= hi then hi + 1 - lo else 0
    ensures forall i :: 0 <= i < |r| ==> r[i] as int == lo + i
    decreases hi + 1 - lo
  {
    if lo > hi then [] else [lo as char] + CodeRange(lo + 1, hi)
  }

  lemma CodeRangeMember(lo: nat, hi: nat, c: char)
    requires hi < 128
    ensures c in CodeRange(lo, hi) <==> lo <= c as int <= hi
  {
    var r := CodeRange(lo, hi);
    if lo <= c as int <= hi {
      assert r[c as int - lo] == c;
    }
  }

  lemma CodeRangeDistinct(lo: nat, hi: nat)
    requires hi < 128
    ensures Distinct(CodeRange(lo, hi))
  {
  }

  /** `string.ascii_lowercase`, "abcdefghijklmnopqrstuvwxyz". */
  const Lowercase: string := CodeRange(97, 122)
  /** `string.ascii_uppercase`, "ABCDEFGHIJKLMNOPQRSTUVWXYZ". */
  const Uppercase: string := CodeRange(65, 90)
  /** `string.digits`, "0123456789". */
  const Digits: string := CodeRange(48, 57)
  /**
   * `string.punctuation`, "!\"#$%&'()*+,-./:;<=>?@[\\]^_`{|}~": the printable
   * ASCII characters that are neither letters, digits nor space, ascending.
   */
  const Punctuation: string := CodeRange(33, 47) + CodeRange(58, 64) + CodeRange(91, 96) + CodeRange(123, 126)

  /** The characters of `s` have consecutive codes starting at `lo`. */
  predicate CountsUpFrom(lo: nat, s: string)
  {
    forall i :: 0 <= i < |s| ==> s[i] as int == lo + i
  }

  /** A string of consecutive codes from `lo` to `hi` is that code run. */
  lemma CodeRangeOf(lo: nat, hi: nat, s: string)
    requires hi < 128 && |s| == hi + 1 - lo && CountsUpFrom(lo, s)
    ensures CodeRange(lo, hi) == s
  {
  }

  /** `Lowercase` spells out `string.ascii_lowercase`. */
  lemma LowercaseLiteral()
    ensures Lowercase == "abcdefghijklmnopqrstuvwxyz"
  {
    CodeRangeOf(97, 122, "abcdefghijklmnopqrstuvwxyz");
  }

  /** `Uppercase` spells out `string.ascii_uppercase`. */
  lemma UppercaseLiteral()
    ensures Uppercase == "ABCDEFGHIJKLMNOPQRSTUVWXYZ"
  {
    CodeRangeOf(65, 90, "ABCDEFGHIJKLMNOPQRSTUVWXYZ");
  }

  /** `Digits` spells out `string.digits`. */
  lemma DigitsLiteral()
    ensures Digits == "0123456789"
  {
    CodeRangeOf(48, 57, "0123456789");
  }

  /** The four code runs of `string.punctuation`, spelt out. */
  lemma PunctuationRuns()
    ensures CodeRange(33, 47) == "!\"#$%&'()*+,-./"
    ensures CodeRange(58, 64) == ":;<=>?@"
    ensures CodeRange(91, 96) == "[\\]^_`"
    ensures CodeRange(123, 126) == "{|}~"
  {
    CodeRangeOf(33, 47, "!\"#$%&'()*+,-./");
    CodeRangeOf(58, 64, ":;<=>?@");
    CodeRangeOf(91, 96, "[\\]^_`");
    CodeRangeOf(123, 126, "{|}~");
  }

  /** `Punctuation` spells out `string.punctuation`. */
  lemma PunctuationLiteral()
    ensures Punctuation == "!\"#$%&'()*+,-./:;<=>?@[\\]^_`{|}~"
  {
    calc {
      Punctuation;
      CodeRange(33, 47) + CodeRange(58, 64) + CodeRange(91, 96) + CodeRange(123, 126);
      { PunctuationRuns(); }
      "!\"#$%&'()*+,-./" + ":;<=>?@" + "[\\]^_`" + "{|}~";
      "!\"#$%&'()*+,-./:;<=>?@[\\]^_`{|}~";
    }
  }

  /** The four check boxes and the custom field of the charset tab. */
  datatype Selection = Selection(lowercase: bool, uppercase: bool, digits: bool, special: bool, custom: string)

  /** A character class of each group, by code. */
  predicate InGroup(sel: Selection, c: char)
  {
    var k := c as int;
    || (sel.lowercase && 97 <= k <= 122)
    || (sel.uppercase && 65 <= k <= 90)
    || (sel.digits && 48 <= k <= 57)
    || (sel.special && (33 <= k <= 47 || 58 <= k <= 64 || 91 <= k <= 96 || 123 <= k <= 126))
  }

  /** The checked groups, concatenated in the order lowercase, uppercase, digits, punctuation. */
  function Presets(sel: Selection): string
  {
    (if sel.lowercase then Lowercase else [])
    + (if sel.uppercase then Uppercase else [])
    + (if sel.digits then Digits else [])
    + (if sel.special then Punctuation else [])
  }

  lemma PunctuationShape()
    ensures Distinct(Punctuation)
    ensures forall c :: c in Punctuation <==> 33 <= c as int <= 47 || 58 <= c as int <= 64 || 91 <= c as int <= 96 || 123 <= c as int <= 126
  {
    var p1, p2, p3, p4 := CodeRange(33, 47), CodeRange(58, 64), CodeRange(91, 96), CodeRange(123, 126);
    forall c
      ensures c in Punctuation <==> c in p1 || c in p2 || c in p3 || c in p4
    {
    }
    forall c
      ensures (c in p1 <==> 33 <= c as int <= 47) && (c in p2 <==> 58 <= c as int <= 64)
      ensures (c in p3 <==> 91 <= c as int <= 96) && (c in p4 <==> 123 <= c as int <= 126)
    {
      CodeRangeMember(33, 47, c);
      CodeRangeMember(58, 64, c);
      CodeRangeMember(91, 96, c);
      CodeRangeMember(123, 126, c);
    }
    CodeRangeDistinct(33, 47);
    CodeRangeDistinct(58, 64);
    CodeRangeDistinct(91, 96);
    CodeRangeDistinct(123, 126);
    DistinctAppend(p1, p2);
    DistinctAppend(p1 + p2, p3);
    DistinctAppend(p1 + p2 + p3, p4);
  }

  /** The presets hold each character of the checked groups exactly once. */
  lemma PresetsShape(sel: Selection)
    ensures Distinct(Presets(sel))
    ensures forall c :: c in Presets(sel) <==> InGroup(sel, c)
  {
    var lo := if sel.lowercase then Lowercase else [];
    var up := if sel.uppercase then Uppercase else [];
    var dg := if sel.digits then Digits else [];
    var pn := if sel.special then Punctuation else [];
    PunctuationShape();
    forall c
      ensures (c in lo <==> sel.lowercase && 97 <= c as int <= 122)
      ensures (c in up <==> sel.uppercase && 65 <= c as int <= 90)
      ensures (c in dg <==> sel.digits && 48 <= c as int <= 57)
    {
      CodeRangeMember(97, 122, c);
      CodeRangeMember(65, 90, c);
      CodeRangeMember(48, 57, c);
    }
    CodeRangeDistinct(97, 122);
    CodeRangeDistinct(65, 90);
    CodeRangeDistinct(48, 57);
    DistinctAppend(lo, up);
    forall c | c in lo + up
      ensures c !in dg
    {
    }
    DistinctAppend(lo + up, dg);
    forall c | c in lo + up + dg
      ensures c !in pn
    {
      assert c in lo + up || c in dg;
    }
    DistinctAppend(lo + up + dg, pn);
    assert Presets(sel) == lo + up + dg + pn;
  }

  /**
   * Reference definition: the first occurrence of each character of `s`, in
   * the order the first occurrences appear.
   */
  function FirstOccurrences(s: string): string
  {
    if s == [] then []
    else
      var init := s[..|s| - 1];
      if s[|s| - 1] in init then FirstOccurrences(init) else FirstOccurrences(init) + [s[|s| - 1]]
  }

  lemma {:induction false} FirstOccurrencesShape(s: string)
    ensures Distinct(FirstOccurrences(s))
    ensures forall c :: c in FirstOccurrences(s) <==> c in s
    decreases |s|
  {
    if s != [] {
      var init := s[..|s| - 1];
      FirstOccurrencesShape(init);
      assert s == init + [s[|s| - 1]];
    }
  }

  /** A sequence without repetitions is its own list of first occurrences. */
  lemma {:induction false} FirstOccurrencesOfDistinct(s: string)
    requires Distinct(s)
    ensures FirstOccurrences(s) == s
    decreases |s|
  {
    if s != [] {
      var init := s[..|s| - 1];
      assert Distinct(init);
      FirstOccurrencesOfDistinct(init);
      assert s == init + [s[|s| - 1]];
    }
  }

  /** Appending characters only appends first occurrences: the earlier ones stay a prefix. */
  lemma {:induction false} FirstOccurrencesPrefix(a: string, b: string)
    ensures FirstOccurrences(a) <= FirstOccurrences(a + b)
    decreases |b|
  {
    if b == [] {
      assert a + b == a;
    } else {
      var init := b[..|b| - 1];
      FirstOccurrencesPrefix(a, init);
      assert (a + b)[..|a + b| - 1] == a + init;
      assert FirstOccurrences(a + init) <= FirstOccurrences(a + b);
    }
  }

  /** One more character is kept exactly when it has not occurred yet. */
  lemma FirstOccurrencesStep(a: string, b: string, i: nat)
    requires i < |b|
    ensures FirstOccurrences(a + b[..i + 1])
      == if b[i] in FirstOccurrences(a + b[..i]) then FirstOccurrences(a + b[..i]) else FirstOccurrences(a + b[..i]) + [b[i]]
  {
    var s := a + b[..i];
    FirstOccurrencesShape(s);
    assert a + b[..i + 1] == s + [b[i]];
    assert (s + [b[i]])[..|s|] == s;
  }

  /**
   * The charset built from a selection: the presets come first, nothing is
   * repeated, it holds exactly the checked groups and the custom characters,
   * and it is empty exactly when nothing is checked and nothing typed.
   */
  lemma CharsetShape(sel: Selection)
    ensures Presets(sel) <= FirstOccurrences(Presets(sel) + sel.custom)
    ensures Distinct(FirstOccurrences(Presets(sel) + sel.custom))
    ensures forall c :: c in FirstOccurrences(Presets(sel) + sel.custom) <==> InGroup(sel, c) || c in sel.custom
    ensures FirstOccurrences(Presets(sel) + sel.custom) == []
        <==> !sel.lowercase && !sel.uppercase && !sel.digits && !sel.special && sel.custom == []
  {
    var presets := Presets(sel);
    var r := FirstOccurrences(presets + sel.custom);
    PresetsShape(sel);
    FirstOccurrencesOfDistinct(presets);
    FirstOccurrencesShape(presets + sel.custom);
    FirstOccurrencesPrefix(presets, sel.custom);
    assert |sel.custom| > 0 ==> sel.custom[0] in r;
    assert |presets| > 0 ==> presets[0] in r;
  }

  /**
   * The custom-character loop of `get_charset`: each character of `extra` is
   * appended unless the charset already holds it. Starting from a charset
   * without repetitions, the result is the first occurrences of `base + extra`.
   */
  method AppendNew(base: string, extra: string) returns (charset: string)
    requires Distinct(base)
    ensures charset == FirstOccurrences(base + extra)
  {
    FirstOccurrencesOfDistinct(base);
    charset := base;
    var i := 0;
    assert base + extra[..0] == base;
    while i < |extra|
      invariant i <= |extra|
      invariant charset == FirstOccurrences(base + extra[..i])
    {
      FirstOccurrencesStep(base, extra, i);
      if extra[i] !in charset {
        charset := charset + [extra[i]];
      }
      i := i + 1;
    }
    assert extra[..i] == extra;
  }

  /**
   * `get_charset`: the checked presets, then each custom character that the
   * charset does not hold yet.
   */
  method GetCharset(sel: Selection) returns (charset: string)
    ensures charset == FirstOccurrences(Presets(sel) + sel.custom)
    ensures Presets(sel) <= charset
    ensures Distinct(charset)
    ensures forall c :: c in charset <==> InGroup(sel, c) || c in sel.custom
    ensures charset == [] <==> !sel.lowercase && !sel.uppercase && !sel.digits && !sel.special && sel.custom == []
  {
    var presets := Presets(sel);
    PresetsShape(sel);
    charset := AppendNew(presets, sel.custom);
    CharsetShape(sel);
  }
}
