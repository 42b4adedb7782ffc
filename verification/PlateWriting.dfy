/** Which ways of writing a plate mean the same: digit scripts, Arabic letter forms, case, separators, the country's name. */
module PlateWriting {
  import opened Characters
  import opened Options
  import opened PlateNormalization
  import opened PlateMigration

  // ---------- signs and separators ----------

  const ASCII_DIGITS: string := "0123456789"
  const PERSIAN_DIGITS: string := "۰۱۲۳۴۵۶۷۸۹"
  const ARABIC_DIGITS: string := "٠١٢٣٤٥٦٧٨٩"

  /** Characters that may stand anywhere: punctuation, and white space. */
  const SEPARATORS: set<char> :=
    {'-', '_', '/', '\\', '.', ',', '(', ')',
     '\U{9}', '\U{A}', '\U{B}', '\U{C}', '\U{D}', '\U{1C}', '\U{1D}', '\U{1E}', '\U{1F}', '\U{20}', '\U{85}', '\U{A0}', '\U{1680}',
     '\U{2000}', '\U{2001}', '\U{2002}', '\U{2003}', '\U{2004}', '\U{2005}', '\U{2006}', '\U{2007}', '\U{2008}', '\U{2009}',
     '\U{200A}', '\U{2028}', '\U{2029}', '\U{202F}', '\U{205F}', '\U{3000}'}

  /** The digit k in one of the three scripts. */
  predicate DigitForm(c: char, k: nat)
    requires k < 10
  {
    c == ASCII_DIGITS[k] || c == PERSIAN_DIGITS[k] || c == ARABIC_DIGITS[k]
  }

  predicate SameDigit(a: char, b: char) {
    exists k: nat :: k < 10 && DigitForm(a, k) && DigitForm(b, k)
  }

  /** The Persian and the Arabic kaf, and the Persian yeh and the two Arabic ones. */
  predicate SameForm(a: char, b: char) {
    || (a in {'\U{6A9}', '\U{643}'} && b in {'\U{6A9}', '\U{643}'})
    || (a in {'\U{6CC}', '\U{64A}', '\U{649}'} && b in {'\U{6CC}', '\U{64A}', '\U{649}'})
  }

  /** A Latin letter in lower case and the same in upper case. */
  predicate SameLatin(lower: char, upper: char) {
    'a' <= lower <= 'z' && 'A' <= upper <= 'Z' && lower as int - 'a' as int == upper as int - 'A' as int
  }

  predicate SameSign(a: char, b: char) {
    a == b || SameDigit(a, b) || SameForm(a, b) || SameLatin(a, b) || SameLatin(b, a)
  }

  /** Two texts of the same signs, with any separators between them. */
  predicate Alike(s: string, t: string)
    decreases |s| + |t|
  {
    || (s == "" && t == "")
    || (s != "" && s[0] in SEPARATORS && Alike(s[1..], t))
    || (t != "" && t[0] in SEPARATORS && Alike(s, t[1..]))
    || (s != "" && t != "" && SameSign(s[0], t[0]) && Alike(s[1..], t[1..]))
  }

  lemma SeparatorsAre(c: char)
    ensures IsSeparator(c) <==> c in SEPARATORS
  {
  }

  lemma DigitFormIs(c: char, k: nat)
    requires k < 10
    ensures DigitForm(c, k) <==> c as int == '0' as int + k || c as int == 0x6F0 + k || c as int == 0x660 + k
  {
  }

  /** Folding makes one of exactly the characters that are the same sign. */
  lemma FoldIff(a: char, b: char)
    ensures Fold(a) == Fold(b) <==> SameSign(a, b)
  {
    hide SameDigit;
    DigitsFold(a, b);
    if !SameDigit(a, b) { LettersFold(a, b); }
  }

  lemma DigitsFold(a: char, b: char)
    ensures SameDigit(a, b) <==> Fold(a) == Fold(b) && IsDigit(Fold(a))
  {
    hide DigitForm;
    forall c, k: nat | k < 10
      ensures DigitForm(c, k) <==> Fold(c) as int == '0' as int + k
    {
      DigitFormIs(c, k);
    }
    if Fold(a) == Fold(b) && IsDigit(Fold(a)) {
      var k := Fold(a) as int - '0' as int;
      assert DigitForm(a, k) && DigitForm(b, k);
    }
  }

  lemma LettersFold(a: char, b: char)
    requires !IsDigit(Fold(a)) || Fold(a) != Fold(b)
    ensures Fold(a) == Fold(b) <==> a == b || SameForm(a, b) || SameLatin(a, b) || SameLatin(b, a)
  {
  }

  lemma SqueezeHead(s: string)
    requires s != ""
    ensures Squeeze(s) == (if s[0] in SEPARATORS then "" else [Fold(s[0])]) + Squeeze(s[1..])
  {
    hide Fold, IsSeparator;
    SeparatorsAre(s[0]);
  }

  lemma SeparatorsApart(a: char, b: char)
    requires SameSign(a, b)
    ensures a in SEPARATORS <==> b in SEPARATORS
  {
    SeparatorsAre(a);
    SeparatorsAre(b);
    FoldIff(a, b);
  }

  /** Squeezing makes one of exactly the texts that are alike. */
  lemma {:induction false} AlikeIff(s: string, t: string)
    ensures Alike(s, t) <==> Squeeze(s) == Squeeze(t)
    decreases |s| + |t|
  {
    hide Squeeze, SameSign;
    SqueezeNothing();
    if s != "" { SqueezeHead(s); }
    if t != "" { SqueezeHead(t); }
    if s != "" && s[0] in SEPARATORS { AlikeIff(s[1..], t); }
    if t != "" && t[0] in SEPARATORS { AlikeIff(s, t[1..]); }
    if s != "" && t != "" {
      FoldIff(s[0], t[0]);
      if SameSign(s[0], t[0]) { SeparatorsApart(s[0], t[0]); }
      AlikeIff(s[1..], t[1..]);
      if s[0] !in SEPARATORS && t[0] !in SEPARATORS {
        assert Squeeze(s)[0] == Fold(s[0]) && Squeeze(s)[1..] == Squeeze(s[1..]);
        assert Squeeze(t)[0] == Fold(t[0]) && Squeeze(t)[1..] == Squeeze(t[1..]);
      }
    }
  }

  lemma SqueezeNothing()
    ensures Squeeze("") == ""
  {
  }

  /** Texts that are alike are normalised alike. */
  lemma AlikeNormalizes(raw: string, other: string, mode: Mode)
    requires Alike(raw, other)
    ensures Normalize(Some(raw), mode) == Normalize(Some(other), mode)
  {
    hide Squeeze, Normalize, Alike, Split;
    AlikeIff(raw, other);
    NormalizeIs(raw, mode);
    NormalizeIs(other, mode);
  }

  /** So are texts that have the same sign at each place: one digit script or form of a letter for another, anywhere. */
  lemma SignBySign(raw: string, other: string, mode: Mode)
    requires |raw| == |other| && forall i :: 0 <= i < |raw| ==> SameSign(raw[i], other[i])
    ensures Normalize(Some(raw), mode) == Normalize(Some(other), mode)
  {
    PlacesAlike(raw, other);
    AlikeNormalizes(raw, other, mode);
  }

  lemma {:induction false} PlacesAlike(raw: string, other: string)
    requires |raw| == |other| && forall i :: 0 <= i < |raw| ==> SameSign(raw[i], other[i])
    ensures Alike(raw, other)
  {
    hide SameSign;
    if raw != "" { PlacesAlike(raw[1..], other[1..]); }
  }

  /** The digit k of each script, spelled out: in its place it makes no difference which of them is written. */
  lemma DigitScripts(before: string, after: string, k: nat, mode: Mode)
    requires k < 10
    ensures Normalize(Some(before + [PERSIAN_DIGITS[k]] + after), mode) == Normalize(Some(before + [ASCII_DIGITS[k]] + after), mode)
    ensures Normalize(Some(before + [ARABIC_DIGITS[k]] + after), mode) == Normalize(Some(before + [ASCII_DIGITS[k]] + after), mode)
  {
    hide Normalize;
    DigitFormIs(PERSIAN_DIGITS[k], k);
    assert DigitForm(PERSIAN_DIGITS[k], k) && DigitForm(ARABIC_DIGITS[k], k) && DigitForm(ASCII_DIGITS[k], k);
    SameInPlace(before, after, PERSIAN_DIGITS[k], ASCII_DIGITS[k], mode);
    SameInPlace(before, after, ARABIC_DIGITS[k], ASCII_DIGITS[k], mode);
  }

  /** So is the Arabic kaf for the Persian one, and either Arabic yeh for the Persian one. */
  lemma ArabicForms(before: string, after: string, mode: Mode)
    ensures Normalize(Some(before + "\U{643}" + after), mode) == Normalize(Some(before + "\U{6A9}" + after), mode)
    ensures Normalize(Some(before + "\U{64A}" + after), mode) == Normalize(Some(before + "\U{6CC}" + after), mode)
    ensures Normalize(Some(before + "\U{649}" + after), mode) == Normalize(Some(before + "\U{6CC}" + after), mode)
  {
    hide Normalize;
    SameInPlace(before, after, '\U{643}', '\U{6A9}', mode);
    SameInPlace(before, after, '\U{64A}', '\U{6CC}', mode);
    SameInPlace(before, after, '\U{649}', '\U{6CC}', mode);
  }

  lemma SameInPlace(before: string, after: string, a: char, b: char, mode: Mode)
    requires SameSign(a, b)
    ensures Normalize(Some(before + [a] + after), mode) == Normalize(Some(before + [b] + after), mode)
  {
    hide Normalize, SameSign;
    var s, t := before + [a] + after, before + [b] + after;
    forall i | 0 <= i < |s| ensures SameSign(s[i], t[i]) { if i != |before| { Itself(s[i]); assert s[i] == t[i]; } }
    SignBySign(s, t, mode);
  }

  lemma Itself(a: char)
    ensures SameSign(a, a)
  {
  }

  /** A separator may be put in anywhere. */
  lemma SeparatorAnywhere(before: string, c: char, after: string, mode: Mode)
    requires c in SEPARATORS
    ensures Normalize(Some(before + [c] + after), mode) == Normalize(Some(before + after), mode)
  {
    hide Normalize, Alike, Squeeze;
    SqueezeHead([c]);
    SqueezeNothing();
    SqueezeConcat(before, [c]);
    SqueezeConcat(before + [c], after);
    SqueezeConcat(before, after);
    assert [c][1..] == "";
    AlikeIff(before + [c] + after, before + after);
    AlikeNormalizes(before + [c] + after, before + after, mode);
  }

  // ---------- a written plate ----------

  lemma {:induction false} SqueezeStays(s: string)
    requires forall i :: 0 <= i < |s| ==> Fold(s[i]) == s[i] && s[i] !in SEPARATORS
    ensures Squeeze(s) == s
  {
    hide Fold;
    if s != "" {
      SqueezeHead(s);
      SqueezeStays(s[1..]);
    }
  }

  lemma PlainStays(c: char)
    requires IsDigit(c) || IsUpper(c) || IsTableLetter(c)
    ensures Fold(c) == c && c !in SEPARATORS
  {
    hide IsTableLetter;
    SeparatorsAre(c);
    if IsTableLetter(c) { LetterRange(c); }
  }

  lemma LetterRange(c: char)
    requires IsTableLetter(c)
    ensures '\U{627}' <= c <= '\U{642}' || '\U{644}' <= c <= '\U{648}' || c == '\U{67E}' || c == '\U{686}' || c == '\U{698}'
            || c == '\U{6A9}' || c == '\U{6AF}' || c == '\U{6CC}'
  {
  }

  lemma TextStays(w: Written)
    requires Proper(w)
    ensures Squeeze(TextOf(w)) == TextOf(w)
  {
    hide Fold, Squeeze, IsTableLetter;
    var s := TextOf(w);
    CountryLetters();
    forall i | 0 <= i < |s| ensures Fold(s[i]) == s[i] && s[i] !in SEPARATORS { PlainStays(s[i]); }
    SqueezeStays(s);
  }

  lemma CountryLetters()
    ensures forall i :: 0 <= i < |IRAN| ==> IsTableLetter(IRAN[i])
  {
  }

  /** However a plate of one table letter is written - any of the three digit scripts, either form of a letter, any
      separators, any spelling of the country's name in either case, or none - it normalises to its digits, its
      letter's code and its province, and the result is valid. */
  lemma WrittenNormalizes(raw: string, w: Written, mode: Mode)
    requires Proper(w) && |w.sign| == 1 && w.sign[0] in LETTERS && Alike(raw, w.two + w.sign + w.three + w.word + w.province)
    ensures OneLetter(raw) && PlateOf(raw) == Some(Parts(w.two, w.sign, w.three, w.province))
    ensures Code(mode, w.sign[0]).Some?
    ensures Normalize(Some(raw), mode)
         == Some(w.two + Code(mode, w.sign[0]).value + w.three + if w.province == "" then "" else "IR" + w.province)
    ensures IsValidPlate(Normalize(Some(raw), mode))
  {
    hide Squeeze, Normalize, Alike, Code, IsTableLetter;
    LettersListed(w.sign[0]);
    assert w.two + w.sign + w.three + w.word + w.province == TextOf(w);
    AlikeIff(raw, TextOf(w));
    TextStays(w);
    SqueezedNormalizes(raw, w, mode);
  }

  lemma AlikeConcat(a: string, b: string, c: string, d: string)
    requires Alike(a, b) && Alike(c, d)
    ensures Alike(a + c, b + d)
  {
    hide Alike, Squeeze;
    AlikeIff(a, b);
    AlikeIff(c, d);
    SqueezeConcat(a, c);
    SqueezeConcat(b, d);
    AlikeIff(a + c, b + d);
  }

  const EXAMPLE := Written("12", "ب", "345", IRAN, "67")

  /** The example of the source. */
  lemma ExampleNormalizes(mode: Mode)
    ensures Normalize(Some("۱۲ ب ۳۴۵ ایران ۶۷"), mode) == Some("12B345IR67")
  {
    hide Normalize, Alike, Proper, OneLetter, PlateOf, IsValidPlate, Code;
    ExampleProper(mode);
    ExampleAlike();
    WrittenNormalizes("۱۲ ب ۳۴۵ ایران ۶۷", EXAMPLE, mode);
    ExampleResult();
  }

  lemma ExampleProper(mode: Mode)
    ensures Proper(EXAMPLE) && EXAMPLE.sign[0] in LETTERS && Code(mode, EXAMPLE.sign[0]) == Some("B")
  {
    assert LETTERS[1] == EXAMPLE.sign[0];
    assert IsTableLetter(EXAMPLE.sign[0]);
  }

  lemma ExampleResult()
    ensures EXAMPLE.two + "B" + EXAMPLE.three + (if EXAMPLE.province == "" then "" else "IR" + EXAMPLE.province) == "12B345IR67"
    ensures |EXAMPLE.sign| == 1
  {
  }

  lemma ExampleAlike()
    ensures Alike("۱۲ ب ۳۴۵ ایران ۶۷", EXAMPLE.two + EXAMPLE.sign + EXAMPLE.three + EXAMPLE.word + EXAMPLE.province)
  {
    hide Alike;
    PersianDigits("۱۲", "12");
    PersianDigits("۳۴۵", "345");
    PersianDigits("۶۷", "67");
    ExampleRaw();
    Spaced("۱۲", EXAMPLE.sign, "۳۴۵", EXAMPLE.word, "۶۷", EXAMPLE);
  }

  lemma Spaced(two: string, sign: string, three: string, word: string, province: string, w: Written)
    requires Alike(two, w.two) && sign == w.sign && Alike(three, w.three) && word == w.word && Alike(province, w.province)
    ensures Alike(two + " " + (sign + " " + (three + " " + (word + " " + province))), w.two + w.sign + w.three + w.word + w.province)
  {
    hide Alike;
    SameText(sign);
    SameText(word);
    Joined(word, w.word, province, w.province);
    Joined(three, w.three, word + " " + province, w.word + w.province);
    Joined(sign, w.sign, three + " " + (word + " " + province), w.three + (w.word + w.province));
    Joined(two, w.two, sign + " " + (three + " " + (word + " " + province)), w.sign + (w.three + (w.word + w.province)));
    assert w.two + (w.sign + (w.three + (w.word + w.province))) == w.two + w.sign + w.three + w.word + w.province;
  }

  lemma ExampleRaw()
    ensures "۱۲" + " " + ("ب" + " " + ("۳۴۵" + " " + (IRAN + " " + "۶۷"))) == "۱۲ ب ۳۴۵ ایران ۶۷"
  {
  }

  lemma PersianDigits(s: string, t: string)
    requires |s| == |t| && forall i :: 0 <= i < |s| ==> IsDigit(t[i]) && s[i] as int - 0x6F0 == t[i] as int - '0' as int
    ensures Alike(s, t)
  {
    forall i | 0 <= i < |s| ensures SameSign(s[i], t[i]) {
      var k := t[i] as int - '0' as int;
      DigitFormIs(s[i], k);
      DigitFormIs(t[i], k);
    }
    PlacesAlike(s, t);
  }

  lemma SameText(s: string)
    ensures Alike(s, s)
  {
    PlacesAlike(s, s);
  }

  /** The space between two parts does not count. */
  lemma Joined(a: string, b: string, c: string, d: string)
    requires Alike(a, b) && Alike(c, d)
    ensures Alike(a + " " + c, b + d)
  {
    assert Alike("", "") && Alike(" ", "");
    AlikeConcat(a, b, " ", "");
    assert b + "" == b;
    AlikeConcat(a + " ", b, c, d);
  }

  // ---------- what the tables say ----------

  /** The letters that share a code of the many-to-one table. */
  function Sharers(code: string): string {
    match code
    case "A" => "اع" case "B" => "ب" case "P" => "پ" case "T" => "تط" case "S" => "ثسشص" case "J" => "ج" case "C" => "چ"
    case "H" => "حه" case "X" => "خ" case "D" => "د" case "Z" => "ذزژضظ" case "R" => "ر" case "G" => "غقگ" case "F" => "ف"
    case "K" => "ک" case "L" => "ل" case "M" => "م" case "N" => "ن" case "V" => "و" case "Y" => "ی" case _ => ""
  }

  /** Each code of the many-to-one table stands for exactly these letters, and each code of the unique table for one. */
  lemma CodesAre(c: char)
    requires c in LETTERS
    ensures ManyToOneCode(c).Some? && forall code :: ManyToOneCode(c) == Some(code) <==> c in Sharers(code)
    ensures UniqueCode(c).Some? && UniqueLetter(UniqueCode(c).value) == Some(c)
  {
    hide UniqueLetter;
    LettersListed(c);
    TablesListLetters(ManyToOne, c);
    UniqueReadsBack(c);
    SharesItsCode(c);
    forall code | c in Sharers(code) ensures ManyToOneCode(c) == Some(code) { SharersShare(c, code); }
  }

  lemma SharesItsCode(c: char)
    requires ManyToOneCode(c).Some?
    ensures c in Sharers(ManyToOneCode(c).value)
  {
  }

  lemma SharersShare(c: char, code: string)
    requires c in Sharers(code)
    ensures ManyToOneCode(c) == Some(code)
  {
  }

  /** The letters part is coded sign by sign: a table letter by its code, a Latin letter by itself, anything else by nothing;
      and X stands for a part without any sign. */
  lemma {:induction false} CodedSignBySign(mode: Mode, letters: string, c: char)
    ensures Codes(mode, letters + [c])
         == Codes(mode, letters)
            + (if Code(mode, c).Some? then Code(mode, c).value
               else if 'A' <= c <= 'Z' || 'a' <= c <= 'z' then [c] else "")
    ensures Codes(mode, "") == "" && LetterCode(mode, "") == "X"
    ensures (exists i :: 0 <= i < |letters| && IsSign(letters[i])) ==> LetterCode(mode, letters) == Codes(mode, letters)
  {
    hide Code;
    assert (letters + [c])[..|letters|] == letters;
    if exists i :: 0 <= i < |letters| && IsSign(letters[i]) {
      var i :| 0 <= i < |letters| && IsSign(letters[i]);
      SignCounts(letters, i);
      CodesOfSigns(mode, letters);
    }
  }

  lemma {:induction false} SignCounts(letters: string, i: nat)
    requires i < |letters| && IsSign(letters[i])
    ensures |Signs(letters)| >= 1
  {
    hide IsSign;
    if i < |letters| - 1 { SignCounts(letters[..|letters| - 1], i); }
  }

  // ---------- what is taken for a plate ----------

  /** Two digits, at least one character, three digits, perhaps IR, perhaps a province of two digits. */
  predicate Reads(s: string, p: Parts, word: string) {
    && s == p.two + p.letters + p.three + word + p.province && (word == "" || word == "IR")
    && Shaped(p) && |p.letters| >= 1
  }

  lemma TailIff(s: string, three: string, province: string)
    ensures Tail(s) == Some((three, province)) <==>
              && |three| == 3 && Digits(three) && (province == "" || (|province| == 2 && Digits(province)))
              && (s == three + province || s == three + "IR" + province)
  {
    if Tail(s) == Some((three, province)) {
      assert s == s[..3] + s[3..];
      if |s[3..]| >= 2 && s[3..][..2] == "IR" {
        assert s[3..] == "IR" + s[3..][2..];
      }
    }
    if |three| == 3 && s == three + province {
      assert s[..3] == three && s[3..] == province;
      if |province| == 2 && Digits(province) { assert IsDigit(province[0]); }
    }
    if |three| == 3 && s == three + "IR" + province {
      assert s[..3] == three && s[3..] == "IR" + province && s[3..][..2] == "IR" && s[3..][2..] == province;
    }
  }

  /** A cleaned text is taken for a plate exactly when it can be read as one, and of all readings the one with the fewest
      characters between the digits is taken. */
  lemma SplitIff(s: string)
    ensures Split(s).Some? ==> Reads(s, Split(s).value, "") || Reads(s, Split(s).value, "IR")
    ensures forall p, word :: Reads(s, p, word) ==> Split(s).Some? && |Split(s).value.letters| <= |p.letters|
  {
    hide Tail, Reads;
    if Split(s).Some? { SplitSound(s); }
    forall p, word | Reads(s, p, word) ensures Split(s).Some? && |Split(s).value.letters| <= |p.letters| {
      SplitComplete(s, p, word);
    }
  }

  lemma SplitSound(s: string)
    requires Split(s).Some?
    ensures Reads(s, Split(s).value, "") || Reads(s, Split(s).value, "IR")
  {
    hide Tail, FindTail;
    var k := FindTail(s, 3).value;
    var (three, province) := Tail(s[k..]).value;
    TailIff(s[k..], three, province);
    assert s == s[..2] + s[2..k] + s[k..];
    var p := Split(s).value;
    if s[k..] == three + province {
      assert s == p.two + p.letters + p.three + "" + p.province;
    } else {
      assert s == p.two + p.letters + p.three + "IR" + p.province;
    }
  }

  lemma SplitComplete(s: string, p: Parts, word: string)
    requires Reads(s, p, word)
    ensures Split(s).Some? && |Split(s).value.letters| <= |p.letters|
  {
    hide Tail, FindTail;
    var k := 2 + |p.letters|;
    assert s == p.two + p.letters + (p.three + word + p.province);
    assert s[..2] == p.two && s[k..] == p.three + word + p.province;
    TailIff(s[k..], p.three, p.province);
    assert word == "" ==> p.three + word + p.province == p.three + p.province;
    TailFound(s, 3, k);
  }

  lemma {:induction false} TailFound(s: string, from: nat, k: nat)
    requires from <= k <= |s| && Tail(s[k..]).Some?
    ensures FindTail(s, from).Some? && FindTail(s, from).value <= k
    decreases k - from
  {
    if from < k && Tail(s[from..]).None? { TailFound(s, from + 1, k); }
  }

  /** Every occurrence is replaced: after copying what has none, and the occurrence itself, the same goes on with the rest. */
  lemma ReplaceEach(s: string, t: string, from: string, to: string)
    requires from != "" && forall i :: 0 <= i < |s| ==> !StartsAt(s + (from + t), i, from)
    ensures ReplaceAll(s + from + t, from, to) == s + to + ReplaceAll(t, from, to)
  {
    hide StartsAt;
    ReplaceSkips(s, from + t, from, to);
    assert (from + t)[..|from|] == from && (from + t)[|from|..] == t;
    assert s + from + t == s + (from + t);
  }
}
