/** Normalising an Iranian plate, and moving normalised plates from one letter table to the other. */
module PlateNormalization {
  import opened Characters
  import opened Options

  // ---------- the two letter tables ----------

  datatype Mode = ManyToOne | Unique

  const LETTERS: string := "ابپتثجچحخدذرزژسشصضطظعغفقکگلمنوهی"

  function ManyToOneCode(c: char): Option<string> {
    match c
    case 'ا' => Some("A") case 'ب' => Some("B") case 'پ' => Some("P") case 'ت' => Some("T")
    case 'ث' => Some("S") case 'ج' => Some("J") case 'چ' => Some("C") case 'ح' => Some("H")
    case 'خ' => Some("X") case 'د' => Some("D") case 'ذ' => Some("Z") case 'ر' => Some("R")
    case 'ز' => Some("Z") case 'ژ' => Some("Z") case 'س' => Some("S") case 'ش' => Some("S")
    case 'ص' => Some("S") case 'ض' => Some("Z") case 'ط' => Some("T") case 'ظ' => Some("Z")
    case 'ع' => Some("A") case 'غ' => Some("G") case 'ف' => Some("F") case 'ق' => Some("G")
    case 'ک' => Some("K") case 'گ' => Some("G") case 'ل' => Some("L") case 'م' => Some("M")
    case 'ن' => Some("N") case 'و' => Some("V") case 'ه' => Some("H") case 'ی' => Some("Y")
    case _ => None
  }

  function UniqueCode(c: char): Option<string> {
    match c
    case 'ا' => Some("A") case 'ب' => Some("B") case 'پ' => Some("P") case 'ت' => Some("T")
    case 'ث' => Some("SS") case 'ج' => Some("J") case 'چ' => Some("CC") case 'ح' => Some("H")
    case 'خ' => Some("KH") case 'د' => Some("D") case 'ذ' => Some("ZD") case 'ر' => Some("R")
    case 'ز' => Some("Z") case 'ژ' => Some("ZJ") case 'س' => Some("S") case 'ش' => Some("SH")
    case 'ص' => Some("SC") case 'ض' => Some("ZB") case 'ط' => Some("TA") case 'ظ' => Some("ZZ")
    case 'ع' => Some("E") case 'غ' => Some("GH") case 'ف' => Some("F") case 'ق' => Some("G")
    case 'ک' => Some("K") case 'گ' => Some("GG") case 'ل' => Some("L") case 'م' => Some("M")
    case 'ن' => Some("N") case 'و' => Some("V") case 'ه' => Some("HH") case 'ی' => Some("Y")
    case _ => None
  }

  function Code(mode: Mode, c: char): Option<string> {
    match mode case ManyToOne => ManyToOneCode(c) case Unique => UniqueCode(c)
  }

  predicate IsTableLetter(c: char) {
    UniqueCode(c).Some?
  }

  // ---------- normalize_plate ----------

  /** White space of the source language's `strip` and `\s`. */
  predicate IsSpace(c: char) {
    c == ' ' || '\U{9}' <= c <= '\U{D}' || '\U{1C}' <= c <= '\U{1F}' || c == '\U{85}' || c == '\U{A0}' || c == '\U{1680}'
    || '\U{2000}' <= c <= '\U{200A}' || c == '\U{2028}' || c == '\U{2029}' || c == '\U{202F}' || c == '\U{205F}'
    || c == '\U{3000}'
  }

  predicate IsSeparator(c: char) {
    IsSpace(c) || c in "-_/\\.,()"
  }

  predicate IsUpper(c: char) {
    'A' <= c <= 'Z'
  }

  predicate IsLower(c: char) {
    'a' <= c <= 'z'
  }

  function Shift(c: char, from: char, to: char): char
    requires from <= c && (c as int - from as int) + to as int < 0xD800
  {
    (c as int - from as int + to as int) as char
  }

  /** Persian and Arabic digits to ASCII, Arabic letters to Persian, lower case to upper. */
  function Fold(c: char): char {
    if '\U{6F0}' <= c <= '\U{6F9}' then Shift(c, '\U{6F0}', '0')
    else if '\U{660}' <= c <= '\U{669}' then Shift(c, '\U{660}', '0')
    else if c == '\U{643}' then '\U{6A9}'
    else if c == '\U{64A}' || c == '\U{649}' then '\U{6CC}'
    else if IsLower(c) then Shift(c, 'a', 'A')
    else c
  }

  function Squeeze(s: string): string {
    if s == "" then ""
    else (if IsSeparator(s[0]) then "" else [Fold(s[0])]) + Squeeze(s[1..])
  }

  function ReplaceAll(s: string, from: string, to: string): string
    requires from != ""
    decreases |s|
  {
    if |s| < |from| then s
    else if s[..|from|] == from then to + ReplaceAll(s[|from|..], from, to)
    else [s[0]] + ReplaceAll(s[1..], from, to)
  }

  const IRAN: string := "ایران"

  function Clean(raw: string): string {
    ReplaceAll(ReplaceAll(Squeeze(raw), "IRAN", "IR"), IRAN, "IR")
  }

  /** The parts of a plate; a missing province is the empty string. */
  datatype Parts = Parts(two: string, letters: string, three: string, province: string)

  /** Three digits, optionally `IR`, optionally a province of two digits, and the end. */
  function Tail(s: string): Option<(string, string)> {
    if |s| < 3 || !Digits(s[..3]) then None
    else
      var rest := s[3..];
      var province := if |rest| >= 2 && rest[..2] == "IR" then rest[2..] else rest;
      if province == "" || (|province| == 2 && Digits(province)) then Some((s[..3], province)) else None
  }

  /** The shortest letters part that leaves a proper tail. */
  function FindTail(s: string, k: nat): (r: Option<nat>)
    requires k <= |s|
    ensures r.Some? ==> k <= r.value <= |s| && Tail(s[r.value..]).Some?
    decreases |s| - k
  {
    if Tail(s[k..]).Some? then Some(k) else if k == |s| then None else FindTail(s, k + 1)
  }

  function Split(s: string): Option<Parts> {
    if |s| < 3 || !Digits(s[..2]) then None
    else
      match FindTail(s, 3)
      case None => None
      case Some(k) => var (three, province) := Tail(s[k..]).value; Some(Parts(s[..2], s[2..k], three, province))
  }

  function CodeOf(mode: Mode, c: char): string {
    match Code(mode, c)
    case Some(code) => code
    case None => if IsUpper(c) || IsLower(c) then [c] else ""
  }

  function Codes(mode: Mode, letters: string): string {
    if letters == "" then "" else Codes(mode, letters[..|letters| - 1]) + CodeOf(mode, letters[|letters| - 1])
  }

  function LetterCode(mode: Mode, letters: string): string {
    var codes := Codes(mode, letters);
    if codes == "" then "X" else codes
  }

  function Join(two: string, code: string, three: string, province: string): string {
    two + code + three + (if province == "" then "" else "IR" + province)
  }

  predicate Blank(s: string) {
    forall i :: 0 <= i < |s| ==> IsSpace(s[i])
  }

  function Normalize(raw: Option<string>, mode: Mode): Option<string> {
    if raw.None? || Blank(raw.value) then None
    else
      match Split(Clean(raw.value))
      case None => None
      case Some(p) => Some(Join(p.two, LetterCode(mode, p.letters), p.three, p.province))
  }

  method NormalizePlate(raw: Option<string>, mode: Mode) returns (normalized: Option<string>)
    ensures normalized == Normalize(raw, mode)
  {
    hide Code, Clean, Split, Blank;
    if raw.None? || Blank(raw.value) { return None; }
    var parts := Split(Clean(raw.value));
    if parts.None? { return None; }
    var p := parts.value;
    var code := "";
    for i := 0 to |p.letters|
      invariant code == Codes(mode, p.letters[..i])
    {
      assert p.letters[..i + 1][..i] == p.letters[..i];
      if Code(mode, p.letters[i]).Some? {
        code := code + Code(mode, p.letters[i]).value;
      } else if IsUpper(p.letters[i]) || IsLower(p.letters[i]) {
        code := code + [p.letters[i]];
      }
    }
    assert p.letters[..|p.letters|] == p.letters;
    if code == "" { code := "X"; }
    var result := p.two + code + p.three;
    if p.province != "" { result := result + ("IR" + p.province); }
    assert result == Join(p.two, code, p.three, p.province);
    normalized := Some(result);
  }

  // ---------- remap_normalized_plate and is_valid_iranian_plate ----------

  /** Without the line feed that the end of a pattern tolerates. */
  function Chomp(s: string): string {
    if s != "" && s[|s| - 1] == '\n' then s[..|s| - 1] else s
  }

  /** Two digits, one or two capitals, three digits, and optionally `IR` with two digits. */
  function ReadNormalized(n: string): Option<Parts> {
    var t := Chomp(n);
    if |t| < 6 || !Digits(t[..2]) || !IsUpper(t[2]) then None
    else
      var k := if IsUpper(t[3]) then 4 else 3;
      if |t| < k + 3 || !Digits(t[k..k + 3]) then None
      else
        var rest := t[k + 3..];
        if rest == "" then Some(Parts(t[..2], t[2..k], t[k..k + 3], ""))
        else if |rest| == 4 && rest[..2] == "IR" && Digits(rest[2..])
        then Some(Parts(t[..2], t[2..k], t[k..k + 3], rest[2..]))
        else None
  }

  predicate IsValidPlate(normalized: Option<string>) {
    normalized.Some? && ReadNormalized(normalized.value).Some?
  }

  /** The letters, in the table's order, that have the given code. */
  function Holders(mode: Mode, letters: string, code: string): string {
    if letters == "" then ""
    else
      var n := |letters| - 1;
      Holders(mode, letters[..n], code) + (if Code(mode, letters[n]) == Some(code) then [letters[n]] else "")
  }

  function Remap(normalized: string, from: Mode, to: Mode): Option<string> {
    match ReadNormalized(normalized)
    case None => None
    case Some(p) =>
      var candidates := Holders(from, LETTERS, p.letters);
      if |candidates| != 1 || Code(to, candidates[0]).None? then None
      else Some(Join(p.two, Code(to, candidates[0]).value, p.three, p.province))
  }

  /** The letters of each code, in the table's order. */
  method ReverseTable(mode: Mode, letters: string) returns (reverse: map<string, string>)
    ensures forall code :: (if code in reverse then reverse[code] else "") == Holders(mode, letters, code)
  {
    hide Code;
    reverse := map[];
    for i := 0 to |letters|
      invariant forall code :: (if code in reverse then reverse[code] else "") == Holders(mode, letters[..i], code)
    {
      assert letters[..i + 1][..i] == letters[..i];
      if Code(mode, letters[i]).Some? {
        var latin := Code(mode, letters[i]).value;
        reverse := reverse[latin := (if latin in reverse then reverse[latin] else "") + [letters[i]]];
      }
    }
    assert letters[..|letters|] == letters;
  }

  method RemapNormalizedPlate(normalized: string, from: Mode, to: Mode) returns (remapped: Option<string>)
    ensures remapped == Remap(normalized, from, to)
  {
    hide Code, ReadNormalized;
    var parts := ReadNormalized(normalized);
    if parts.None? { return None; }
    var p := parts.value;
    var reverse := ReverseTable(from, LETTERS);
    var candidates := if p.letters in reverse then reverse[p.letters] else "";
    if |candidates| != 1 { return None; }
    var newCode := Code(to, candidates[0]);
    if newCode.None? { return None; }
    var result := p.two + newCode.value + p.three;
    if p.province != "" { result := result + ("IR" + p.province); }
    assert result == Join(p.two, newCode.value, p.three, p.province);
    remapped := Some(result);
  }

  // ---------- the tables ----------

  /** Place of a letter in the tables. */
  function Place(c: char): int {
    match c
    case 'ا' => 0 case 'ب' => 1 case 'پ' => 2 case 'ت' => 3 case 'ث' => 4 case 'ج' => 5 case 'چ' => 6 case 'ح' => 7
    case 'خ' => 8 case 'د' => 9 case 'ذ' => 10 case 'ر' => 11 case 'ز' => 12 case 'ژ' => 13 case 'س' => 14 case 'ش' => 15
    case 'ص' => 16 case 'ض' => 17 case 'ط' => 18 case 'ظ' => 19 case 'ع' => 20 case 'غ' => 21 case 'ف' => 22 case 'ق' => 23
    case 'ک' => 24 case 'گ' => 25 case 'ل' => 26 case 'م' => 27 case 'ن' => 28 case 'و' => 29 case 'ه' => 30 case 'ی' => 31
    case _ => -1
  }

  predicate Distinct(s: string) {
    forall i, j :: 0 <= i < j < |s| ==> s[i] != s[j]
  }

  /** The tables list the same letters, each once. */
  lemma TablesListLetters(mode: Mode, c: char)
    ensures Code(mode, c).Some? == IsTableLetter(c)
  {
  }

  lemma LettersListed(c: char)
    ensures c in LETTERS <==> IsTableLetter(c)
  {
    hide ManyToOneCode;
    if c in LETTERS {
      hide UniqueCode, Place;
      var i :| 0 <= i < |LETTERS| && LETTERS[i] == c;
      PlaceAt(i);
    }
    PlacedLetters(c);
    if Place(c) >= 0 { AtPlace(c); }
  }

  lemma PlacedLetters(c: char)
    ensures Place(c) >= 0 <==> IsTableLetter(c)
  {
    hide ManyToOneCode;
  }

  lemma AtPlace(c: char)
    requires Place(c) >= 0
    ensures Place(c) < |LETTERS| && LETTERS[Place(c)] == c
  {
    hide ManyToOneCode, UniqueCode;
  }

  lemma PlaceAt(i: nat)
    requires i < |LETTERS|
    ensures Place(LETTERS[i]) == i
  {
    hide ManyToOneCode, UniqueCode;
  }

  lemma LettersDistinct()
    ensures Distinct(LETTERS)
  {
    forall i | 0 <= i < |LETTERS| ensures Place(LETTERS[i]) == i { PlaceAt(i); }
  }
}
