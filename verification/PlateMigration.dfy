/** What the two letter tables promise: reading back, telling plates apart, and moving from one to the other. */
module PlateMigration {
  import opened Characters
  import opened Options
  import opened PlateNormalization

  // ---------- what a written plate says ----------

  predicate IsSign(c: char) {
    IsTableLetter(c) || IsUpper(c) || IsLower(c)
  }

  /** The characters of the letters part that count. */
  function Signs(letters: string): string {
    if letters == "" then ""
    else
      var n := |letters| - 1;
      Signs(letters[..n]) + (if IsSign(letters[n]) then [letters[n]] else "")
  }

  /** The plate a text stands for: its parts, with only the letters that count. */
  function PlateOf(raw: string): Option<Parts> {
    match Split(Clean(raw))
    case None => None
    case Some(p) => Some(p.(letters := Signs(p.letters)))
  }

  /** A text whose letters part holds exactly one sign, and that sign is a letter of the tables. */
  predicate OneLetter(raw: string) {
    PlateOf(raw).Some? && |PlateOf(raw).value.letters| == 1 && IsTableLetter(PlateOf(raw).value.letters[0])
  }

  lemma {:induction false} CodesOfSigns(mode: Mode, letters: string)
    ensures Codes(mode, letters) == Codes(mode, Signs(letters))
    ensures |Signs(letters)| <= |Codes(mode, letters)|
    ensures mode == ManyToOne ==> |Codes(mode, letters)| == |Signs(letters)|
  {
    hide CodeOf, IsSign;
    if letters != "" {
      var n := |letters| - 1;
      var before := Signs(letters[..n]);
      CodesOfSigns(mode, letters[..n]);
      CodeOfSign(mode, letters[n]);
      if IsSign(letters[n]) {
        assert Signs(letters) == before + [letters[n]];
        assert (before + [letters[n]])[..|before|] == before;
      } else {
        assert Signs(letters) == before && Codes(mode, letters) == Codes(mode, letters[..n]);
      }
    }
  }

  lemma CodeOfSign(mode: Mode, c: char)
    ensures CodeOf(mode, c) == "" <==> !IsSign(c)
    ensures mode == ManyToOne && IsSign(c) ==> |CodeOf(mode, c)| == 1
  {
  }

  lemma CodesOfOne(mode: Mode, c: char)
    ensures Codes(mode, [c]) == CodeOf(mode, c)
  {
    hide CodeOf;
    assert [c][..0] == "";
    assert Codes(mode, "") == "";
  }

  /** A blank text has no plate, so normalising reads only the parts. */
  lemma NormalizeIs(raw: string, mode: Mode)
    ensures Normalize(Some(raw), mode) == match PlateOf(raw)
                                          case None => None
                                          case Some(p) => Some(Join(p.two, LetterCode(mode, p.letters), p.three, p.province))
  {
    hide Join, Codes, Signs, FindTail;
    if Blank(raw) { BlankIsEmpty(raw); }
    if PlateOf(raw).Some? { CodesOfSigns(mode, Split(Clean(raw)).value.letters); }
  }

  lemma {:induction false} BlankIsEmpty(raw: string)
    requires Blank(raw)
    ensures Squeeze(raw) == ""
  {
    hide Fold;
    if raw != "" { BlankIsEmpty(raw[1..]); }
  }

  // ---------- reading a normalised plate back ----------

  predicate Shaped(p: Parts) {
    && |p.two| == 2 && Digits(p.two) && |p.three| == 3 && Digits(p.three)
    && (p.province == "" || (|p.province| == 2 && Digits(p.province)))
  }

  predicate Capitals(s: string) {
    forall i :: 0 <= i < |s| ==> IsUpper(s[i])
  }

  lemma PlateShaped(raw: string)
    requires PlateOf(raw).Some?
    ensures Shaped(PlateOf(raw).value)
  {
    hide Clean, Signs;
  }

  lemma Slices(a: string, b: string, c: string)
    ensures (a + b + c)[..|a|] == a && (a + b + c)[|a|..|a| + |b|] == b && (a + b + c)[|a| + |b|..] == c
  {
  }

  /** Reading takes a joined plate apart again exactly when its code has one or two letters. */
  lemma ReadJoin(p: Parts)
    requires Shaped(p) && Capitals(p.letters) && p.letters != ""
    ensures ReadNormalized(Join(p.two, p.letters, p.three, p.province)) == if |p.letters| <= 2 then Some(p) else None
  {
    var s := Join(p.two, p.letters, p.three, p.province);
    var k := 2 + |p.letters|;
    var tail := if p.province == "" then "" else "IR" + p.province;
    assert s == p.two + p.letters + (p.three + tail);
    Slices(p.two, p.letters, p.three + tail);
    Slices(p.two + p.letters, p.three, tail);
    assert s[..2] == p.two && s[2..k] == p.letters && s[k..k + 3] == p.three && s[k + 3..] == tail;
    assert Chomp(s) == s by { assert IsDigit(s[|s| - 1]); }
    if |p.letters| > 2 {
      assert IsUpper(s[2]) && IsUpper(s[3]) && IsUpper(s[4]);
      if |s| >= 7 { assert !IsDigit(s[4..7][0]); }
    } else if |p.letters| == 2 {
      assert IsUpper(s[2]) && IsUpper(s[3]);
    } else {
      assert IsUpper(s[2]) && IsDigit(s[3]);
    }
  }

  lemma {:induction false} ReadSound(n: string)
    requires ReadNormalized(n).Some?
    ensures
      var p := ReadNormalized(n).value;
      Shaped(p) && Capitals(p.letters) && 1 <= |p.letters| <= 2 && Chomp(n) == Join(p.two, p.letters, p.three, p.province)
  {
    var p := ReadNormalized(n).value;
    var t := Chomp(n);
    var k := 2 + |p.letters|;
    assert t == t[..2] + t[2..k] + t[k..k + 3] + t[k + 3..];
    if p.province != "" { assert t[k + 3..] == "IR" + p.province; }
  }

  // ---------- the letter tables ----------

  /** No other letter has this letter's code. */
  predicate Alone(mode: Mode, c: char) {
    forall d :: IsTableLetter(d) && Code(mode, d) == Code(mode, c) ==> d == c
  }

  lemma {:induction false} HoldersAre(mode: Mode, letters: string, code: string, c: char)
    ensures c in Holders(mode, letters, code) <==> c in letters && Code(mode, c) == Some(code)
  {
    hide Code;
    if letters != "" {
      var n := |letters| - 1;
      HoldersAre(mode, letters[..n], code, c);
      assert letters == letters[..n] + [letters[n]];
    }
  }

  lemma {:induction false} AtMostOneHolder(mode: Mode, letters: string, c: char, code: string)
    requires Distinct(letters)
    requires forall d :: d in letters && Code(mode, d) == Some(code) ==> d == c
    ensures |Holders(mode, letters, code)| <= 1
  {
    hide Code;
    if letters != "" {
      var n := |letters| - 1;
      AtMostOneHolder(mode, letters[..n], c, code);
      if Code(mode, letters[n]) == Some(code) {
        assert letters[n] !in letters[..n];
        if Holders(mode, letters[..n], code) != "" {
          HoldersAre(mode, letters[..n], code, Holders(mode, letters[..n], code)[0]);
        }
      }
    }
  }

  lemma SoleHolderIn(mode: Mode, letters: string, c: char, code: string)
    requires Code(mode, c) == Some(code) && IsTableLetter(c)
    requires Distinct(letters) && forall d :: d in letters <==> IsTableLetter(d)
    ensures Alone(mode, c) <==> |Holders(mode, letters, code)| == 1
    ensures Alone(mode, c) ==> Holders(mode, letters, code) == [c]
  {
    hide Code, Holders, IsTableLetter;
    HoldersAre(mode, letters, code, c);
    if Alone(mode, c) {
      AtMostOneHolder(mode, letters, c, code);
    } else {
      var d :| IsTableLetter(d) && Code(mode, d) == Code(mode, c) && d != c;
      HoldersAre(mode, letters, code, d);
    }
  }

  /** A letter's code leads back to it, as the only candidate, exactly when the letter is alone with its code. */
  lemma SoleHolder(mode: Mode, c: char, code: string)
    requires Code(mode, c) == Some(code)
    ensures Alone(mode, c) <==> |Holders(mode, LETTERS, code)| == 1
    ensures Alone(mode, c) ==> Holders(mode, LETTERS, code) == [c]
  {
    hide Code, Holders, IsTableLetter, Alone;
    TablesListLetters(mode, c);
    forall d ensures d in LETTERS <==> IsTableLetter(d) { LettersListed(d); }
    LettersDistinct();
    SoleHolderIn(mode, LETTERS, c, code);
  }

  /** The letter of a code of the unique table. */
  function UniqueLetter(code: string): Option<char> {
    match code
    case "A" => Some('ا') case "B" => Some('ب') case "P" => Some('پ') case "T" => Some('ت')
    case "SS" => Some('ث') case "J" => Some('ج') case "CC" => Some('چ') case "H" => Some('ح')
    case "KH" => Some('خ') case "D" => Some('د') case "ZD" => Some('ذ') case "R" => Some('ر')
    case "Z" => Some('ز') case "ZJ" => Some('ژ') case "S" => Some('س') case "SH" => Some('ش')
    case "SC" => Some('ص') case "ZB" => Some('ض') case "TA" => Some('ط') case "ZZ" => Some('ظ')
    case "E" => Some('ع') case "GH" => Some('غ') case "F" => Some('ف') case "G" => Some('ق')
    case "K" => Some('ک') case "GG" => Some('گ') case "L" => Some('ل') case "M" => Some('م')
    case "N" => Some('ن') case "V" => Some('و') case "HH" => Some('ه') case "Y" => Some('ی')
    case _ => None
  }

  lemma UniqueReadsBack(c: char)
    requires IsTableLetter(c)
    ensures UniqueLetter(UniqueCode(c).value) == Some(c)
  {
  }

  /** The unique table deserves its name. */
  lemma {:induction false} UniqueAlone(c: char)
    requires IsTableLetter(c)
    ensures Alone(Unique, c)
  {
    hide UniqueCode, UniqueLetter;
    forall d | IsTableLetter(d) && Code(Unique, d) == Code(Unique, c) ensures d == c {
      UniqueReadsBack(c);
      UniqueReadsBack(d);
    }
  }

  /** The letters that share no code in the many-to-one table. */
  const UNSHARED: string := "بپجچخدرفکلمنوی"

  /** Another letter with the same code in the many-to-one table, if there is one. */
  function Rival(c: char): char {
    match c
    case 'ا' => 'ع' case 'ت' => 'ط' case 'ث' => 'س' case 'ح' => 'ه' case 'ذ' => 'ز' case 'ز' => 'ذ'
    case 'ژ' => 'ذ' case 'س' => 'ث' case 'ش' => 'ث' case 'ص' => 'ث' case 'ض' => 'ذ' case 'ط' => 'ت'
    case 'ظ' => 'ذ' case 'ع' => 'ا' case 'غ' => 'ق' case 'ق' => 'غ' case 'گ' => 'غ' case 'ه' => 'ح'
    case _ => c
  }

  lemma RivalSharesCode(c: char)
    requires IsTableLetter(c)
    ensures IsTableLetter(Rival(c)) && Code(ManyToOne, Rival(c)) == Code(ManyToOne, c)
  {
  }

  function ManyToOneLetter(code: string): Option<char> {
    match code
    case "B" => Some('ب') case "P" => Some('پ') case "J" => Some('ج') case "C" => Some('چ')
    case "X" => Some('خ') case "D" => Some('د') case "R" => Some('ر') case "F" => Some('ف')
    case "K" => Some('ک') case "L" => Some('ل') case "M" => Some('م') case "N" => Some('ن')
    case "V" => Some('و') case "Y" => Some('ی')
    case _ => None
  }

  lemma ManyToOneReadsBack(c: char)
    requires IsTableLetter(c)
    ensures Rival(c) == c ==> ManyToOneLetter(ManyToOneCode(c).value) == Some(c)
    ensures Rival(c) != c ==> ManyToOneLetter(ManyToOneCode(c).value).None?
  {
  }

  lemma RivalIsShared(c: char)
    requires IsTableLetter(c)
    ensures Rival(c) == c <==> c in UNSHARED
  {
    hide ManyToOneCode;
  }

  /** The many-to-one table can be read back for these letters and no others. */
  lemma ManyToOneAlone(c: char)
    requires IsTableLetter(c)
    ensures Alone(ManyToOne, c) <==> c in UNSHARED
  {
    hide ManyToOneCode, UniqueCode, Rival, ManyToOneLetter;
    RivalIsShared(c);
    RivalSharesCode(c);
    ManyToOneReadsBack(c);
    if Rival(c) == c {
      forall d | IsTableLetter(d) && Code(ManyToOne, d) == Code(ManyToOne, c) ensures d == c { ManyToOneReadsBack(d); }
    }
  }

  /** Where the many-to-one table can be read back, the two tables differ for two codes only. */
  lemma UnsharedCodes(c: char)
    requires IsTableLetter(c) && Rival(c) == c
    ensures UniqueCode(c) == ManyToOneCode(c) <==> ManyToOneCode(c).value[0] !in "CX"
  {
  }

  lemma CodeShape(mode: Mode, c: char)
    requires IsTableLetter(c)
    ensures Code(mode, c).Some? && Capitals(Code(mode, c).value) && 1 <= |Code(mode, c).value| <= 2
    ensures mode == ManyToOne ==> |Code(mode, c).value| == 1
    ensures !IsUpper(c) && !IsLower(c) && !IsDigit(c)
  {
  }

  // ---------- migration ----------

  /** A text with one table letter normalises to that letter's code, and the result reads back. */
  lemma NormalizeOne(raw: string, mode: Mode)
    requires OneLetter(raw)
    ensures
      var p := PlateOf(raw).value;
      var code := Code(mode, p.letters[0]);
      && code.Some? && Shaped(p)
      && Normalize(Some(raw), mode) == Some(Join(p.two, code.value, p.three, p.province))
      && ReadNormalized(Normalize(Some(raw), mode).value) == Some(p.(letters := code.value))
  {
    hide Code, PlateOf, IsTableLetter, Join, ReadNormalized, Normalize;
    var p := PlateOf(raw).value;
    var c := p.letters[0];
    assert p.letters == [c];
    NormalizeIs(raw, mode);
    CodesOfOne(mode, c);
    CodeShape(mode, c);
    PlateShaped(raw);
    ReadJoin(p.(letters := Code(mode, c).value));
  }

  /** Migrating a plate of one table letter succeeds exactly when the letter is alone with its code, and then
      gives what normalising the written plate with the target table gives. */
  lemma MigrationSound(raw: string, from: Mode, to: Mode)
    requires OneLetter(raw)
    ensures
      var n := Normalize(Some(raw), from);
      && n.Some?
      && Remap(n.value, from, to)
         == if Alone(from, PlateOf(raw).value.letters[0]) then Normalize(Some(raw), to) else None
  {
    hide Code, PlateOf, IsTableLetter, Join, ReadNormalized, Normalize, Alone, Holders;
    var p := PlateOf(raw).value;
    NormalizeOne(raw, from);
    NormalizeOne(raw, to);
    SoleHolder(from, p.letters[0], Code(from, p.letters[0]).value);
  }

  /** From the unique table a plate of one table letter can always be migrated, so the migration can be undone. */
  lemma UniqueMigrates(raw: string, to: Mode)
    requires OneLetter(raw)
    ensures Normalize(Some(raw), Unique).Some? && Normalize(Some(raw), to).Some?
    ensures Remap(Normalize(Some(raw), Unique).value, Unique, to) == Normalize(Some(raw), to)
  {
    hide Normalize, Remap, Alone, PlateOf, IsTableLetter;
    MigrationSound(raw, Unique, to);
    NormalizeOne(raw, to);
    UniqueAlone(PlateOf(raw).value.letters[0]);
  }

  predicate NoLower(s: string) {
    forall i :: 0 <= i < |s| ==> !IsLower(s[i])
  }

  lemma {:induction false} SqueezeNoLower(s: string)
    ensures NoLower(Squeeze(s))
  {
    if s != "" {
      SqueezeNoLower(s[1..]);
      assert !IsLower(Fold(s[0]));
    }
  }

  lemma {:induction false} ReplaceNoLower(s: string, from: string, to: string)
    requires from != "" && NoLower(s) && NoLower(to)
    ensures NoLower(ReplaceAll(s, from, to))
    decreases |s|
  {
    if |s| >= |from| {
      ReplaceNoLower(if s[..|from|] == from then s[|from|..] else s[1..], from, to);
    }
  }

  lemma SignsAreCapital(raw: string)
    requires PlateOf(raw).Some?
    ensures NoLower(PlateOf(raw).value.letters)
    ensures forall i :: 0 <= i < |PlateOf(raw).value.letters| ==> IsSign(PlateOf(raw).value.letters[i])
  {
    hide Squeeze, ReplaceAll, IsSign, FindTail, Tail;
    SqueezeNoLower(raw);
    ReplaceNoLower(Squeeze(raw), "IRAN", "IR");
    ReplaceNoLower(ReplaceAll(Squeeze(raw), "IRAN", "IR"), IRAN, "IR");
    SignsNoLower(Split(Clean(raw)).value.letters);
  }

  lemma {:induction false} SignsNoLower(letters: string)
    requires NoLower(letters)
    ensures NoLower(Signs(letters)) && forall i :: 0 <= i < |Signs(letters)| ==> IsSign(Signs(letters)[i])
  {
    hide IsSign;
    if letters != "" { SignsNoLower(letters[..|letters| - 1]); }
  }

  lemma {:induction false} CodesCapital(mode: Mode, signs: string)
    requires NoLower(signs) && forall i :: 0 <= i < |signs| ==> IsSign(signs[i])
    ensures Capitals(Codes(mode, signs))
  {
    hide CodeOf, IsSign;
    if signs != "" {
      var c := signs[|signs| - 1];
      CodesCapital(mode, signs[..|signs| - 1]);
      SignCapital(mode, c);
    }
  }

  lemma SignCapital(mode: Mode, c: char)
    requires IsSign(c) && !IsLower(c)
    ensures Capitals(CodeOf(mode, c))
    ensures !IsTableLetter(c) ==> CodeOf(mode, c) == [c]
  {
    hide Code, IsTableLetter;
    TablesListLetters(mode, c);
    if IsTableLetter(c) { CodeShape(mode, c); }
  }

  /** What normalising gives reads back as the plate with its code, when the code has one or two letters. */
  lemma NormalizedReads(raw: string, mode: Mode)
    requires PlateOf(raw).Some?
    ensures
      var p := PlateOf(raw).value;
      var code := LetterCode(mode, p.letters);
      && Shaped(p) && code != "" && Capitals(code)
      && Normalize(Some(raw), mode) == Some(Join(p.two, code, p.three, p.province))
      && ReadNormalized(Normalize(Some(raw), mode).value) == if |code| <= 2 then Some(p.(letters := code)) else None
  {
    hide PlateOf, Join, ReadNormalized, Normalize, IsSign, Codes;
    var p := PlateOf(raw).value;
    NormalizeIs(raw, mode);
    PlateShaped(raw);
    SignsAreCapital(raw);
    CodesCapital(mode, p.letters);
    ReadJoin(p.(letters := LetterCode(mode, p.letters)));
  }

  /** The candidate that makes a migration from the many-to-one table succeed. */
  lemma Candidate(code: string) returns (c: char)
    requires |Holders(ManyToOne, LETTERS, code)| == 1
    ensures IsTableLetter(c) && Code(ManyToOne, c) == Some(code) && |code| == 1
    ensures Holders(ManyToOne, LETTERS, code) == [c]
    ensures UniqueCode(c) == Some(code) <==> code[0] !in "CX"
  {
    hide Code, IsTableLetter, Holders, UniqueCode, ManyToOneCode, Rival;
    c := Holders(ManyToOne, LETTERS, code)[0];
    HoldersAre(ManyToOne, LETTERS, code, c);
    TablesListLetters(ManyToOne, c);
    CodeShape(ManyToOne, c);
    SoleHolder(ManyToOne, c, code);
    ManyToOneAlone(c);
    RivalIsShared(c);
    CodeOfMany(c);
    UnsharedCodes(c);
  }

  lemma CodeOfMany(c: char)
    ensures Code(ManyToOne, c) == ManyToOneCode(c)
  {
  }

  lemma JoinInjective(p: Parts, q: Parts)
    requires Shaped(p) && Capitals(p.letters) && 1 <= |p.letters| <= 2
    requires Shaped(q) && Capitals(q.letters) && 1 <= |q.letters| <= 2
    ensures Join(p.two, p.letters, p.three, p.province) == Join(q.two, q.letters, q.three, q.province) <==> p == q
  {
    hide Join, ReadNormalized;
    ReadJoin(p);
    ReadJoin(q);
  }

  /** A text without table letters that has at most one sign normalises alike with both tables. */
  lemma NoLetterSame(raw: string)
    requires PlateOf(raw).Some? && !OneLetter(raw) && |PlateOf(raw).value.letters| <= 1
    ensures Normalize(Some(raw), Unique) == Normalize(Some(raw), ManyToOne)
  {
    hide Normalize, PlateOf, IsTableLetter, CodeOf, Join;
    var signs := PlateOf(raw).value.letters;
    NormalizeIs(raw, ManyToOne);
    NormalizeIs(raw, Unique);
    SignsAreCapital(raw);
    if signs != "" {
      assert signs == [signs[0]];
      CodesOfOne(ManyToOne, signs[0]);
      CodesOfOne(Unique, signs[0]);
      SignCapital(ManyToOne, signs[0]);
      SignCapital(Unique, signs[0]);
    }
  }

  /** A successful migration to the unique table is right exactly when the code came from a table letter, or is
      neither C nor X. */
  lemma MigrationRightIff(raw: string)
    requires Normalize(Some(raw), ManyToOne).Some? && Remap(Normalize(Some(raw), ManyToOne).value, ManyToOne, Unique).Some?
    ensures
      var n := Normalize(Some(raw), ManyToOne).value;
      && |n| >= 3
      && (Remap(n, ManyToOne, Unique) == Normalize(Some(raw), Unique) <==> OneLetter(raw) || n[2] !in "CX")
  {
    hide Normalize, PlateOf, IsTableLetter, Join, ReadNormalized, Holders, Codes, UniqueCode, Alone;
    var n := Normalize(Some(raw), ManyToOne).value;
    NormalizeIs(raw, ManyToOne);
    NormalizedReads(raw, ManyToOne);
    var p := PlateOf(raw).value;
    var code := LetterCode(ManyToOne, p.letters);
    var c := Candidate(code);
    ThirdIsCode(p.(letters := code));
    CodeShape(Unique, c);
    JoinInjective(p.(letters := UniqueCode(c).value), p.(letters := code));
    if OneLetter(raw) {
      MigrationSound(raw, ManyToOne, Unique);
    } else {
      OneCodeEach(raw);
      NoLetterSame(raw);
    }
  }

  lemma OneCodeEach(raw: string)
    requires PlateOf(raw).Some?
    ensures |Codes(ManyToOne, PlateOf(raw).value.letters)| == |PlateOf(raw).value.letters|
  {
    hide Codes, Signs, Clean, FindTail, Tail;
    CodesOfSigns(ManyToOne, Split(Clean(raw)).value.letters);
  }

  lemma ThirdIsCode(p: Parts)
    requires Shaped(p) && |p.letters| == 1
    ensures
      var n := Join(p.two, p.letters, p.three, p.province);
      |n| >= 3 && n[2] == p.letters[0]
  {
  }


  // ---------- telling plates apart ----------

  /** Two texts of one table letter normalise alike exactly when their digits agree and their letters share a code. */
  lemma NormalizeAlike(raw: string, other: string, mode: Mode)
    requires OneLetter(raw) && OneLetter(other)
    ensures
      var p, q := PlateOf(raw).value, PlateOf(other).value;
      Normalize(Some(raw), mode) == Normalize(Some(other), mode) <==>
      p.(letters := "") == q.(letters := "") && Code(mode, p.letters[0]) == Code(mode, q.letters[0])
  {
    hide Code, PlateOf, IsTableLetter, Join, ReadNormalized, Normalize;
    NormalizeOne(raw, mode);
    NormalizeOne(other, mode);
  }

  /** With the unique table they normalise alike exactly when they are the same plate. */
  lemma UniqueTellsApart(raw: string, other: string)
    requires OneLetter(raw) && OneLetter(other)
    ensures Normalize(Some(raw), Unique) == Normalize(Some(other), Unique) <==> PlateOf(raw) == PlateOf(other)
  {
    hide Code, PlateOf, IsTableLetter, Normalize, Alone;
    var p, q := PlateOf(raw).value, PlateOf(other).value;
    NormalizeAlike(raw, other, Unique);
    UniqueAlone(p.letters[0]);
    SameLetter(p.letters[0], q.letters[0]);
    assert p.letters == [p.letters[0]] && q.letters == [q.letters[0]];
  }

  lemma SameLetter(c: char, d: char)
    requires Alone(Unique, c) && IsTableLetter(d)
    ensures Code(Unique, d) == Code(Unique, c) <==> d == c
  {
  }

  // ---------- cleaning ----------

  lemma {:induction false} SqueezeConcat(s: string, t: string)
    ensures Squeeze(s + t) == Squeeze(s) + Squeeze(t)
  {
    hide Fold, IsSeparator;
    if s == "" {
      assert s + t == t;
    } else {
      var head := if IsSeparator(s[0]) then "" else [Fold(s[0])];
      SqueezeConcat(s[1..], t);
      assert (s + t)[1..] == s[1..] + t;
      assert Squeeze(s + t) == head + (Squeeze(s[1..]) + Squeeze(t));
      assert Squeeze(s) == head + Squeeze(s[1..]);
    }
  }

  lemma {:induction false} SqueezePlain(s: string)
    requires forall i :: 0 <= i < |s| ==> IsDigit(s[i]) || IsUpper(s[i])
    ensures Squeeze(s) == s
  {
    if s != "" { SqueezePlain(s[1..]); }
  }

  predicate StartsAt(s: string, i: nat, word: string) {
    i + |word| <= |s| && s[i..i + |word|] == word
  }

  /** Where the word does not start, replacing it copies. */
  lemma {:induction false} ReplaceSkips(s: string, t: string, from: string, to: string)
    requires from != "" && forall i :: 0 <= i < |s| ==> !StartsAt(s + t, i, from)
    ensures ReplaceAll(s + t, from, to) == s + ReplaceAll(t, from, to)
    decreases |s|
  {
    hide StartsAt, ReplaceAll;
    if s == "" {
      assert s + t == t;
    } else {
      var rest := s[1..];
      assert (s + t)[1..] == rest + t;
      forall i | 0 <= i < |rest| ensures !StartsAt(rest + t, i, from) {
        assert !StartsAt(s + t, i + 1, from);
        StartsLater(s + t, i, from);
      }
      ReplaceSkips(rest, t, from, to);
      ReplaceFirst(s + t, from, to);
      assert [s[0]] + (rest + ReplaceAll(t, from, to)) == s + ReplaceAll(t, from, to);
    }
  }

  lemma StartsLater(s: string, i: nat, word: string)
    requires s != ""
    ensures StartsAt(s[1..], i, word) == StartsAt(s, i + 1, word)
  {
    if i + 1 + |word| <= |s| { assert s[1..][i..i + |word|] == s[i + 1..i + 1 + |word|]; }
  }

  lemma ReplaceFirst(s: string, from: string, to: string)
    requires from != "" && s != "" && !StartsAt(s, 0, from)
    ensures ReplaceAll(s, from, to) == [s[0]] + ReplaceAll(s[1..], from, to)
  {
  }

  lemma ReplaceNone(s: string, from: string, to: string)
    requires from != "" && forall i :: 0 <= i < |s| ==> !StartsAt(s, i, from)
    ensures ReplaceAll(s, from, to) == s
  {
    assert s + "" == s;
    ReplaceSkips(s, "", from, to);
  }

  lemma Differs(s: string, i: nat, word: string, k: nat)
    requires k < |word| && (i + k < |s| ==> s[i + k] != word[k])
    ensures !StartsAt(s, i, word)
  {
    if i + |word| <= |s| { assert s[i..i + |word|][k] == s[i + k]; }
  }

  /** One plate, whatever was written before the province. */
  datatype Written = Written(two: string, sign: string, three: string, word: string, province: string)

  /** The text of a plate with one table letter, or of a normalised plate, once digits are folded and separators gone. */
  predicate Proper(w: Written) {
    && |w.two| == 2 && Digits(w.two) && |w.three| == 3 && Digits(w.three)
    && (w.province == "" || (|w.province| == 2 && Digits(w.province)))
    && (w.word == "" || w.word == "IR" || w.word == "IRAN" || w.word == IRAN)
    && ((|w.sign| == 1 && IsTableLetter(w.sign[0])) || (1 <= |w.sign| <= 2 && Capitals(w.sign)))
  }

  function TextOf(w: Written): string {
    w.two + w.sign + w.three + (w.word + w.province)
  }

  function ShortWord(w: Written): string {
    if w.word == "" then "" else "IR"
  }

  /** Neither spelling of the country's name starts inside the plate's own digits and letters. */
  lemma NoNameInside(w: Written, tail: string, name: string)
    requires Proper(w) && (name == "IRAN" || name == IRAN)
    ensures
      var s := w.two + w.sign + w.three;
      forall i :: 0 <= i < |s| ==> !StartsAt(s + tail, i, name)
  {
    hide StartsAt;
    var s := w.two + w.sign + w.three;
    if IsTableLetter(w.sign[0]) { CodeShape(Unique, w.sign[0]); }
    forall i | 0 <= i < |s| ensures !StartsAt(s + tail, i, name) {
      Differs(s + tail, i, name, if 2 <= i < 2 + |w.sign| then 2 else 0);
    }
  }

  lemma ReplaceHere(word: string, rest: string, to: string)
    requires |rest| < |word|
    ensures ReplaceAll(word + rest, word, to) == to + rest
  {
    assert (word + rest)[..|word|] == word && (word + rest)[|word|..] == rest;
    assert ReplaceAll(rest, word, to) == rest;
  }

  lemma WordShortens(w: Written)
    requires Proper(w)
    ensures ReplaceAll(ReplaceAll(w.word + w.province, "IRAN", "IR"), IRAN, "IR") == ShortWord(w) + w.province
  {
    hide StartsAt;
    var s := w.word + w.province;
    if w.word == "IRAN" {
      ReplaceHere("IRAN", w.province, "IR");
    } else {
      forall i | 0 <= i < |s| ensures !StartsAt(s, i, "IRAN") {
        Differs(s, i, "IRAN", if w.word == "IR" && i == 0 then 2 else 0);
      }
      ReplaceNone(s, "IRAN", "IR");
      if w.word == IRAN { ReplaceHere(IRAN, w.province, "IR"); }
    }
  }

  lemma CleanWritten(raw: string, w: Written)
    requires Proper(w) && Squeeze(raw) == TextOf(w)
    ensures Clean(raw) == w.two + w.sign + w.three + (ShortWord(w) + w.province)
  {
    hide ReplaceAll, Squeeze, StartsAt;
    var s, t := w.two + w.sign + w.three, w.word + w.province;
    NoNameInside(w, t, "IRAN");
    ReplaceSkips(s, t, "IRAN", "IR");
    NoNameInside(w, ReplaceAll(t, "IRAN", "IR"), IRAN);
    ReplaceSkips(s, ReplaceAll(t, "IRAN", "IR"), IRAN, "IR");
    WordShortens(w);
  }

  lemma TailOf(w: Written)
    requires Proper(w)
    ensures Tail(w.three + (ShortWord(w) + w.province)) == Some((w.three, w.province))
  {
    var s := w.three + (ShortWord(w) + w.province);
    assert s[..3] == w.three && s[3..] == ShortWord(w) + w.province;
    if w.word == "" {
      assert s[3..] == w.province;
      if |w.province| == 2 { assert IsDigit(s[3..][..2][0]); }
    } else {
      assert s[3..][..2] == "IR" && s[3..][2..] == w.province;
    }
  }

  lemma SplitWritten(w: Written)
    requires Proper(w)
    ensures Split(w.two + w.sign + w.three + (ShortWord(w) + w.province)) == Some(Parts(w.two, w.sign, w.three, w.province))
  {
    hide Tail, IsTableLetter;
    var s := w.two + w.sign + w.three + (ShortWord(w) + w.province);
    var k := 2 + |w.sign|;
    TailOf(w);
    Slices(w.two, w.sign, w.three + (ShortWord(w) + w.province));
    assert s == w.two + w.sign + (w.three + (ShortWord(w) + w.province));
    assert s[2..k] == w.sign;
    if |w.sign| == 2 {
      assert s[3..][0] == w.sign[1];
      LetterNoTail(s[3..]);
      assert FindTail(s, 3) == FindTail(s, 4);
    }
    assert FindTail(s, 3) == Some(k);
  }

  lemma LetterNoTail(s: string)
    requires s != "" && IsUpper(s[0])
    ensures Tail(s).None?
  {
  }

  /** A text that squeezes to a plate of one table letter normalises to its digits, its letter's code and its province. */
  lemma SqueezedNormalizes(raw: string, w: Written, mode: Mode)
    requires Proper(w) && Squeeze(raw) == TextOf(w) && |w.sign| == 1 && IsTableLetter(w.sign[0])
    ensures OneLetter(raw) && PlateOf(raw) == Some(Parts(w.two, w.sign, w.three, w.province))
    ensures Code(mode, w.sign[0]).Some?
    ensures Normalize(Some(raw), mode) == Some(Join(w.two, Code(mode, w.sign[0]).value, w.three, w.province))
    ensures IsValidPlate(Normalize(Some(raw), mode))
  {
    hide Clean, Squeeze, Split, Code, Join, Normalize, ReadNormalized;
    CleanWritten(raw, w);
    SplitWritten(w);
    assert w.sign[..0] == "" && Signs("") == "";
    assert Signs(w.sign) == [w.sign[0]] == w.sign;
    NormalizeOne(raw, mode);
  }

  /** A normalised plate that is valid is not changed by normalising again, with either table, except that a
      trailing line feed, which the validity test tolerates, goes. */
  lemma ValidUnchanged(n: string, mode: Mode)
    requires IsValidPlate(Some(n))
    ensures Normalize(Some(n), mode) == Some(Chomp(n))
  {
    hide Clean, Squeeze, Split, Code, ReadNormalized, Normalize;
    ReadSound(n);
    var p := ReadNormalized(n).value;
    var w := Written(p.two, p.letters, p.three, if p.province == "" then "" else "IR", p.province);
    ValidSqueezes(n, w);
    CleanWritten(n, w);
    SplitWritten(w);
    PlainCodes(mode, p.letters);
    NormalizeParts(n, mode);
  }

  /** So normalising twice is normalising once, whenever the first result is valid. */
  lemma NormalizeTwice(raw: string, mode: Mode, again: Mode)
    requires IsValidPlate(Normalize(Some(raw), mode))
    ensures Normalize(Normalize(Some(raw), mode), again) == Normalize(Some(raw), mode)
  {
    hide Join, PlateOf, ReadNormalized, Normalize;
    NormalizeIs(raw, mode);
    NormalizedReads(raw, mode);
    var n := Normalize(Some(raw), mode).value;
    ValidUnchanged(n, again);
    JoinEnds(PlateOf(raw).value.(letters := LetterCode(mode, PlateOf(raw).value.letters)));
  }

  lemma JoinEnds(p: Parts)
    requires Shaped(p)
    ensures Chomp(Join(p.two, p.letters, p.three, p.province)) == Join(p.two, p.letters, p.three, p.province)
  {
    var s := Join(p.two, p.letters, p.three, p.province);
    assert IsDigit(s[|s| - 1]);
  }

  lemma NormalizeParts(raw: string, mode: Mode)
    requires Split(Clean(raw)).Some?
    ensures
      var p := Split(Clean(raw)).value;
      Normalize(Some(raw), mode) == Some(Join(p.two, LetterCode(mode, p.letters), p.three, p.province))
  {
    hide Join, Codes, Signs, FindTail;
    if Blank(raw) { BlankIsEmpty(raw); }
  }

  lemma ValidSqueezes(n: string, w: Written)
    requires Proper(w) && Capitals(w.sign) && w.word == (if w.province == "" then "" else "IR")
    requires Chomp(n) == Join(w.two, w.sign, w.three, w.province)
    ensures Squeeze(n) == TextOf(w)
  {
    hide Squeeze, Chomp, IsTableLetter;
    var t := Chomp(n);
    assert t == TextOf(w);
    TextPlain(w);
    SqueezePlain(t);
    SqueezeChomp(n);
  }

  lemma TextPlain(w: Written)
    requires Proper(w) && Capitals(w.sign) && (w.word == "" || w.word == "IR")
    ensures forall i :: 0 <= i < |TextOf(w)| ==> IsDigit(TextOf(w)[i]) || IsUpper(TextOf(w)[i])
  {
    hide IsTableLetter;
  }

  lemma SqueezeChomp(n: string)
    ensures Squeeze(n) == Squeeze(Chomp(n))
  {
    if Chomp(n) != n {
      assert n == Chomp(n) + "\n";
      assert Squeeze("\n") == "";
      SqueezeConcat(Chomp(n), "\n");
    }
  }

  lemma {:induction false} PlainCodes(mode: Mode, s: string)
    requires Capitals(s)
    ensures Codes(mode, s) == s
  {
    hide Code;
    if s != "" {
      var n := |s| - 1;
      PlainCodes(mode, s[..n]);
      CapitalCode(mode, s[n]);
      assert s == s[..n] + [s[n]];
    }
  }

  lemma CapitalCode(mode: Mode, c: char)
    requires IsUpper(c)
    ensures CodeOf(mode, c) == [c]
  {
  }

  /** Not every successful migration is right: a Latin X becomes KH. */
  lemma MigrationCanBeWrong()
    ensures
      var raw := "12X345";
      && Normalize(Some(raw), ManyToOne) == Some(raw)
      && Remap(raw, ManyToOne, Unique).Some?
      && Remap(raw, ManyToOne, Unique) != Normalize(Some(raw), Unique)
  {
    hide Normalize, Alone, Holders;
    var raw := "12X345";
    assert Chomp(raw) == raw && raw[2..3] == "X" && raw[3..] == "345";
    var c := UNSHARED[4];
    assert Code(ManyToOne, c) == Some("X");
    ManyToOneAlone(c);
    SoleHolder(ManyToOne, c, "X");
    ValidUnchanged(raw, ManyToOne);
    ValidUnchanged(raw, Unique);
  }
}
