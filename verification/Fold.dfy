// Case-insensitive comparison of field names, with the comparison routine chosen by the name
// (mcpack/fold.go).
module Fold {
  import opened Bytes

  const RUNE_SELF := 0x80
  const RUNE_ERROR := 0xFFFD
  const KELVIN := 0x212A
  const SMALL_LONG_ESS := 0x17F

  // ---- UTF-8 (section 3 of RFC 3629) ----------------------------------------------

  predicate Continues(t: bytes, i: nat, lo: nat, hi: nat) {
    i < |t| && lo <= t[i] <= hi
  }

  // Range of the second byte after a three- or four-byte lead.
  function SecondLow(b: byte): nat {
    if b == 0xE0 then 0xA0 else if b == 0xF0 then 0x90 else 0x80
  }

  function SecondHigh(b: byte): nat {
    if b == 0xED then 0x9F else if b == 0xF4 then 0x8F else 0xBF
  }

  // The first rune and its size; bytes that are not UTF-8 are read one at a time as U+FFFD.
  function DecodeRune(t: bytes): (r: (nat, nat))
    requires t != []
    ensures 1 <= r.1 <= |t|
    ensures t[0] < RUNE_SELF <==> r.0 < RUNE_SELF
    ensures t[0] < RUNE_SELF ==> r == (t[0], 1)
  {
    var b: nat := t[0];
    if b < RUNE_SELF then (b, 1)
    else if 0xC2 <= b <= 0xDF && Continues(t, 1, 0x80, 0xBF) then
      ((b - 0xC0) * 0x40 + (t[1] - 0x80), 2)
    else if 0xE0 <= b <= 0xEF && Continues(t, 1, SecondLow(b), SecondHigh(b)) && Continues(t, 2, 0x80, 0xBF) then
      ((b - 0xE0) * 0x1000 + (t[1] as int - 0x80) * 0x40 + (t[2] as int - 0x80), 3)
    else if 0xF0 <= b <= 0xF4 && Continues(t, 1, SecondLow(b), SecondHigh(b)) && Continues(t, 2, 0x80, 0xBF)
         && Continues(t, 3, 0x80, 0xBF) then
      ((b - 0xF0) * 0x4_0000 + (t[1] as int - 0x80) * 0x1000 + (t[2] as int - 0x80) * 0x40 + (t[3] as int - 0x80), 4)
    else (RUNE_ERROR, 1)
  }

  function Runes(t: bytes): seq<nat> {
    if t == [] then [] else [DecodeRune(t).0] + Runes(t[DecodeRune(t).1..])
  }

  // Code points other than the surrogates.
  predicate IsScalarValue(r: nat) {
    r < 0xD800 || 0xE000 <= r <= 0x10FFFF
  }

  function EncodeRune(r: nat): (t: bytes)
    requires IsScalarValue(r)
    ensures t != []
  {
    if r < 0x80 then [r]
    else if r < 0x800 then [0xC0 + r / 0x40, 0x80 + r % 0x40]
    else if r < 0x1_0000 then [0xE0 + r / 0x1000, 0x80 + r / 0x40 % 0x40, 0x80 + r % 0x40]
    else [0xF0 + r / 0x4_0000, 0x80 + r / 0x1000 % 0x40, 0x80 + r / 0x40 % 0x40, 0x80 + r % 0x40]
  }

  lemma DecodeEncoded(r: nat, rest: bytes)
    requires IsScalarValue(r)
    ensures DecodeRune(EncodeRune(r) + rest) == (r, |EncodeRune(r)|)
  {
    var e := EncodeRune(r);
    var t := e + rest;
    assert t[0] == e[0] && (|e| > 1 ==> t[1] == e[1]) && (|e| > 2 ==> t[2] == e[2]) && (|e| > 3 ==> t[3] == e[3]);
    Shifts(r);
  }

  // What is decoded is either what the front of the data encodes, or the front of the data is
  // no encoding at all.
  lemma EncodeDecoded(t: bytes)
    requires t != []
    ensures var (r, n) := DecodeRune(t);
            if exists x: nat :: IsScalarValue(x) && EncodeRune(x) <= t
            then IsScalarValue(r) && t[..n] == EncodeRune(r)
            else (r, n) == (RUNE_ERROR, 1)
  {
    var (r, n) := DecodeRune(t);
    if x: nat :| IsScalarValue(x) && EncodeRune(x) <= t {
      assert t == EncodeRune(x) + t[|EncodeRune(x)|..];
      DecodeEncoded(x, t[|EncodeRune(x)|..]);
    } else if (r, n) != (RUNE_ERROR, 1) {
      DecodedFront(t);
    }
  }

  lemma DecodedFront(t: bytes)
    requires t != [] && DecodeRune(t) != (RUNE_ERROR, 1)
    ensures IsScalarValue(DecodeRune(t).0) && t[..DecodeRune(t).1] == EncodeRune(DecodeRune(t).0)
  {
    hide EncodeRune;
    var n := DecodeRune(t).1;
    if n == 1 {
      Ascii1(t[0]);
      assert t[..1] == [t[0]];
    } else if n == 2 {
      TwoBytes(t[0] - 0xC0, t[1] - 0x80);
      assert t[..2] == [t[0], t[1]];
    } else if n == 3 {
      ThreeBytes(t[0] - 0xE0, t[1] - 0x80, t[2] - 0x80);
      assert t[..3] == [t[0], t[1], t[2]];
    } else {
      FourBytes(t[0] - 0xF0, t[1] - 0x80, t[2] - 0x80, t[3] - 0x80);
      assert t[..4] == [t[0], t[1], t[2], t[3]];
    }
  }

  lemma Ascii1(a: nat)
    requires a < 0x80
    ensures EncodeRune(a) == [a]
  {
  }

  lemma TwoBytes(h: nat, l: nat)
    requires 2 <= h < 0x20 && l < 0x40
    ensures EncodeRune(h * 0x40 + l) == [0xC0 + h, 0x80 + l]
  {
    Digits(h, l);
  }

  lemma ThreeBytes(h: nat, m: nat, l: nat)
    requires h < 0x10 && m < 0x40 && l < 0x40
    requires (h == 0 ==> m >= 0x20) && (h == 0xD ==> m < 0x20)
    ensures var r := h * 0x1000 + m * 0x40 + l; IsScalarValue(r) && EncodeRune(r) == [0xE0 + h, 0x80 + m, 0x80 + l]
  {
    Digits(h, m);
    Digits(h * 0x40 + m, l);
    Shifts(h * 0x1000 + m * 0x40 + l);
  }

  lemma FourBytes(h: nat, m: nat, k: nat, l: nat)
    requires h < 5 && m < 0x40 && k < 0x40 && l < 0x40
    requires (h == 0 ==> m >= 0x10) && (h == 4 ==> m < 0x10)
    ensures var r := h * 0x4_0000 + m * 0x1000 + k * 0x40 + l;
            IsScalarValue(r) && EncodeRune(r) == [0xF0 + h, 0x80 + m, 0x80 + k, 0x80 + l]
  {
    Digits(h, m);
    Digits(h * 0x40 + m, k);
    Digits(h * 0x1000 + m * 0x40 + k, l);
    Shifts(h * 0x4_0000 + m * 0x1000 + k * 0x40 + l);
  }

  // Taking off the last six bits.
  lemma Digits(q: nat, d: nat)
    requires d < 0x40
    ensures (q * 0x40 + d) / 0x40 == q && (q * 0x40 + d) % 0x40 == d
  {
  }

  lemma Shifts(r: nat)
    ensures r / 0x40 / 0x40 == r / 0x1000 && r / 0x1000 / 0x40 == r / 0x4_0000
  {
  }

  // ---- Simple case folding (section 3.13 of the Unicode Standard) ---------------------

  predicate IsUpper(a: nat) {
    'A' as int <= a <= 'Z' as int
  }

  predicate IsLower(a: nat) {
    'a' as int <= a <= 'z' as int
  }

  predicate IsK(a: nat) {
    a == 'k' as int || a == 'K' as int
  }

  predicate IsS(a: nat) {
    a == 's' as int || a == 'S' as int
  }

  // The runes that fold to the same character as the ASCII character a.
  predicate InOrbit(a: nat, r: nat) {
    || r == a
    || (IsUpper(a) && r == a + 0x20)
    || (IsLower(a) && r + 0x20 == a)
    || (IsK(a) && r == KELVIN)
    || (IsS(a) && r == SMALL_LONG_ESS)
  }

  // fold agrees with the Unicode Standard on every comparison that involves ASCII.
  ghost predicate UnicodeFold(fold: nat -> nat) {
    forall a: nat, r: nat {:trigger fold(a), fold(r)} | a < RUNE_SELF :: fold(a) == fold(r) <==> InOrbit(a, r)
  }

  // The smallest such folding: to lower-case ASCII.
  function ToLower(r: nat): nat {
    if r == KELVIN then 'k' as int else if r == SMALL_LONG_ESS then 's' as int else if IsUpper(r) then r + 0x20 else r
  }

  lemma ToLowerFolds()
    ensures UnicodeFold(ToLower)
  {
  }

  predicate SameRunes(fold: nat -> nat, s: seq<nat>, t: seq<nat>) {
    |s| == |t| && forall i | 0 <= i < |s| :: fold(s[i]) == fold(t[i])
  }

  // What bytes.EqualFold decides: the strings agree rune by rune up to case.
  predicate EqualFold(fold: nat -> nat, s: bytes, t: bytes) {
    SameRunes(fold, Runes(s), Runes(t))
  }

  lemma FoldStep(fold: nat -> nat, s: bytes, t: bytes)
    requires s != [] && t != []
    ensures EqualFold(fold, s, t) <==>
            fold(DecodeRune(s).0) == fold(DecodeRune(t).0)
            && EqualFold(fold, s[DecodeRune(s).1..], t[DecodeRune(t).1..])
  {
    hide DecodeRune, SameRunes;
    var rs, rt := Runes(s), Runes(t);
    assert rs[1..] == Runes(s[DecodeRune(s).1..]) && rt[1..] == Runes(t[DecodeRune(t).1..]);
    SameStep(fold, rs, rt);
  }

  lemma SameStep(fold: nat -> nat, rs: seq<nat>, rt: seq<nat>)
    requires rs != [] && rt != []
    ensures SameRunes(fold, rs, rt) <==> fold(rs[0]) == fold(rt[0]) && SameRunes(fold, rs[1..], rt[1..])
  {
    if fold(rs[0]) == fold(rt[0]) && SameRunes(fold, rs[1..], rt[1..]) {
      forall i | 0 <= i < |rs| ensures fold(rs[i]) == fold(rt[i]) {
        if i > 0 {
          assert rs[i] == rs[1..][i - 1] && rt[i] == rt[1..][i - 1];
        }
      }
    }
    if SameRunes(fold, rs, rt) {
      forall i | 0 <= i < |rs[1..]| ensures fold(rs[1..][i]) == fold(rt[1..][i]) {
        assert rs[1..][i] == rs[i + 1] && rt[1..][i] == rt[i + 1];
      }
    }
  }

  lemma FoldEmpty(fold: nat -> nat, s: bytes, t: bytes)
    requires s == [] || t == []
    ensures EqualFold(fold, s, t) <==> s == t
  {
  }

  function EncodeAll(rs: seq<nat>): bytes
    requires forall i | 0 <= i < |rs| :: IsScalarValue(rs[i])
  {
    if rs == [] then [] else EncodeRune(rs[0]) + EncodeAll(rs[1..])
  }

  lemma {:induction false} RunesEncoded(rs: seq<nat>)
    requires forall i | 0 <= i < |rs| :: IsScalarValue(rs[i])
    ensures Runes(EncodeAll(rs)) == rs
  {
    hide EncodeRune, DecodeRune, IsScalarValue;
    if rs != [] {
      var e, rest := EncodeRune(rs[0]), EncodeAll(rs[1..]);
      DecodeEncoded(rs[0], rest);
      RunesEncoded(rs[1..]);
      assert (e + rest)[|e|..] == rest;
    }
  }

  // Between strings in UTF-8: as many runes, which fold to the same, one by one.
  lemma FoldsRunes(fold: nat -> nat, rs: seq<nat>, ts: seq<nat>)
    requires (forall i | 0 <= i < |rs| :: IsScalarValue(rs[i])) && (forall i | 0 <= i < |ts| :: IsScalarValue(ts[i]))
    ensures EqualFold(fold, EncodeAll(rs), EncodeAll(ts)) <==>
            |rs| == |ts| && forall i | 0 <= i < |rs| :: fold(rs[i]) == fold(ts[i])
  {
    hide Runes, EncodeAll, IsScalarValue;
    RunesEncoded(rs);
    RunesEncoded(ts);
  }

  // Between ASCII strings: the same letters in either case, and everything else the same.
  lemma {:induction false} AsciiFolding(fold: nat -> nat, s: bytes, t: bytes)
    requires UnicodeFold(fold) && (forall i | 0 <= i < |s| :: s[i] < 0x80) && (forall i | 0 <= i < |t| :: t[i] < 0x80)
    ensures EqualFold(fold, s, t) <==> |s| == |t| && forall i | 0 <= i < |s| :: SameLetter(s[i], t[i])
  {
    hide EqualFold, SameLetter, UnicodeFold, DecodeRune;
    if s == [] || t == [] {
      FoldEmpty(fold, s, t);
    } else {
      FoldStep(fold, s, t);
      LetterFolding(fold, s[0], t[0]);
      AsciiFolding(fold, s[1..], t[1..]);
      assert forall i | 0 < i < |s| && i < |t| :: s[i] == s[1..][i - 1] && t[i] == t[1..][i - 1];
      if |s| == |t| && forall i | 0 <= i < |s| :: SameLetter(s[i], t[i]) {
        forall i | 0 <= i < |s[1..]| ensures SameLetter(s[1..][i], t[1..][i]) {
          assert SameLetter(s[i + 1], t[i + 1]);
        }
      }
    }
  }

  predicate SameLetter(a: nat, b: nat) {
    a == b || (0x41 <= a <= 0x5A && b == a + 0x20) || (0x61 <= a <= 0x7A && a == b + 0x20)
  }

  lemma LetterFolding(fold: nat -> nat, a: nat, b: nat)
    requires UnicodeFold(fold) && a < 0x80 && b < 0x80
    ensures fold(a) == fold(b) <==> SameLetter(a, b)
  {
  }

  // The Kelvin sign is a k, and the long s is an s; they are the only such runes beyond ASCII.
  lemma SpecialFolding(fold: nat -> nat, a: byte, r: nat)
    requires UnicodeFold(fold) && a < 0x80 <= r && IsScalarValue(r)
    ensures EncodeRune(0x212A) == [0xE2, 0x84, 0xAA] && EncodeRune(0x17F) == [0xC5, 0xBF]
    ensures EqualFold(fold, [a], EncodeRune(r)) <==>
            (r == 0x212A && a in {0x4B, 0x6B}) || (r == 0x17F && a in {0x53, 0x73})
  {
    hide EqualFold, EncodeRune, DecodeRune;
    FoldStep(fold, [a], EncodeRune(r));
    DecodeEncoded(r, []);
    assert EncodeRune(r) + [] == EncodeRune(r) && [a][1..] == [];
    FoldEmpty(fold, [], EncodeRune(r)[|EncodeRune(r)|..]);
    RuneVectors();
  }

  // Runes of one to four bytes, and bytes that are no UTF-8: too long a form, a surrogate, a rune
  // beyond the last, a lone continuation and a missing one.
  lemma RuneVectors()
    ensures EncodeRune(0x41) == [0x41] && EncodeRune(0x17F) == [0xC5, 0xBF]
    ensures EncodeRune(0x212A) == [0xE2, 0x84, 0xAA] && EncodeRune(0x1F600) == [0xF0, 0x9F, 0x98, 0x80]
    ensures DecodeRune([0xC0, 0x80]) == DecodeRune([0xED, 0xA0, 0x80]) == DecodeRune([0xF4, 0x90, 0x80, 0x80]) ==
            DecodeRune([0x80]) == DecodeRune([0xE2, 0x84]) == (0xFFFD, 1)
  {
  }

  // ---- The four routines ------------------------------------------------------------

  // b & 0xDF.
  function Mask(b: byte): byte {
    if b / 0x20 % 2 == 1 then b - 0x20 else b
  }

  predicate Ascii(s: bytes) {
    forall i | 0 <= i < |s| :: s[i] < RUNE_SELF
  }

  // None of the letters with a third member in their orbit.
  predicate Plain(s: bytes) {
    forall i | 0 <= i < |s| :: s[i] < RUNE_SELF && !IsK(s[i]) && !IsS(s[i])
  }

  predicate Letters(s: bytes) {
    forall i | 0 <= i < |s| :: IsUpper(s[i]) || IsLower(s[i])
  }

  datatype Routine = General | FoldRight | AsciiFold | LetterFold

  method FoldFunc(s: bytes) returns (r: Routine)
    ensures r.General? <==> !Ascii(s)
    ensures r.FoldRight? <==> Ascii(s) && !Plain(s)
    ensures r.AsciiFold? <==> Plain(s) && !Letters(s)
    ensures r.LetterFold? <==> Plain(s) && Letters(s)
  {
    var nonLetter, special := false, false;
    for i := 0 to |s|
      invariant Ascii(s[..i])
      invariant special <==> !Plain(s[..i])
      invariant nonLetter <==> !Letters(s[..i])
    {
      var b := s[i];
      assert s[..i + 1] == s[..i] + [b];
      assert s[..i + 1][i] == b;
      if b >= RUNE_SELF {
        return General;
      }
      var upper := Mask(b);
      if upper < 'A' as int || upper > 'Z' as int {
        nonLetter := true;
      } else if upper == 'K' as int || upper == 'S' as int {
        special := true;
      }
      assert forall j | 0 <= j < i :: s[..i + 1][j] == s[..i][j];
    }
    assert s[..|s|] == s;
    r := if special then FoldRight else if nonLetter then AsciiFold else LetterFold;
  }

  method EqualFoldRight(ghost fold: nat -> nat, s: bytes, t0: bytes) returns (same: bool)
    requires UnicodeFold(fold) && Ascii(s)
    ensures same <==> EqualFold(fold, s, t0)
  {
    hide DecodeRune, EqualFold;
    var t := t0;
    for i := 0 to |s|
      invariant EqualFold(fold, s, t0) <==> EqualFold(fold, s[i..], t)
    {
      if |t| == 0 {
        FoldEmpty(fold, s[i..], t);
        return false;
      }
      var sb, tb := s[i], t[0];
      FoldStep(fold, s[i..], t);
      assert s[i..][1..] == s[i + 1..];
      if tb < RUNE_SELF {
        if sb != tb {
          var sbUpper := Mask(sb);
          if 'A' as int <= sbUpper <= 'Z' as int {
            if sbUpper != Mask(tb) {
              return false;
            }
          } else {
            return false;
          }
        }
        t := t[1..];
      } else {
        var (tr, size) := DecodeRune(t);
        if IsS(sb) {
          if tr != SMALL_LONG_ESS {
            return false;
          }
        } else if IsK(sb) {
          if tr != KELVIN {
            return false;
          }
        } else {
          return false;
        }
        t := t[size..];
      }
    }
    FoldEmpty(fold, s[|s|..], t);
    same := |t| == 0;
  }

  // Names without special letters can only match strings of the same length.
  lemma {:induction false} PlainLength(fold: nat -> nat, s: bytes, t: bytes)
    requires UnicodeFold(fold) && Plain(s) && EqualFold(fold, s, t)
    ensures |s| == |t|
  {
    if s != [] && t != [] {
      FoldStep(fold, s, t);
      assert s[0] < RUNE_SELF;
      PlainLength(fold, s[1..], t[DecodeRune(t).1..]);
    }
  }

  // For a plain letter, comparing masked bytes decides whether the runes match.
  lemma MaskDecides(fold: nat -> nat, a: byte, t: bytes)
    requires UnicodeFold(fold) && t != []
    requires (IsUpper(a) || IsLower(a)) && !IsK(a) && !IsS(a)
    ensures Mask(a) == Mask(t[0]) <==> fold(a) == fold(DecodeRune(t).0)
    ensures Mask(a) == Mask(t[0]) ==> DecodeRune(t).1 == 1
  {
  }

  method AsciiEqualFold(ghost fold: nat -> nat, s: bytes, t: bytes) returns (same: bool)
    requires UnicodeFold(fold) && Plain(s)
    ensures same <==> EqualFold(fold, s, t)
  {
    if |s| != |t| {
      if EqualFold(fold, s, t) {
        PlainLength(fold, s, t);
      }
      return false;
    }
    for i := 0 to |s|
      invariant EqualFold(fold, s, t) <==> EqualFold(fold, s[i..], t[i..])
    {
      var sb, tb := s[i], t[i];
      FoldStep(fold, s[i..], t[i..]);
      assert s[i..][1..] == s[i + 1..] && t[i..][1..] == t[i + 1..];
      if sb != tb {
        if IsLower(sb) || IsUpper(sb) {
          MaskDecides(fold, sb, t[i..]);
          if Mask(sb) != Mask(tb) {
            return false;
          }
        } else {
          return false;
        }
      }
    }
    same := true;
  }

  method SimpleLetterEqualFold(ghost fold: nat -> nat, s: bytes, t: bytes) returns (same: bool)
    requires UnicodeFold(fold) && Plain(s) && Letters(s)
    ensures same <==> EqualFold(fold, s, t)
  {
    hide Mask, DecodeRune, EqualFold, InOrbit;
    if |s| != |t| {
      if EqualFold(fold, s, t) {
        PlainLength(fold, s, t);
      }
      return false;
    }
    for i := 0 to |s|
      invariant EqualFold(fold, s, t) <==> EqualFold(fold, s[i..], t[i..])
    {
      FoldStep(fold, s[i..], t[i..]);
      assert s[i..][1..] == s[i + 1..] && t[i..][1..] == t[i + 1..];
      MaskDecides(fold, s[i], t[i..]);
      if Mask(s[i]) != Mask(t[i]) {
        return false;
      }
    }
    assert s[|s|..] == [] && t[|t|..] == [];
    FoldEmpty(fold, s[|s|..], t[|t|..]);
    same := true;
  }

  // bytes.EqualFold itself, rune by rune.
  method GeneralEqualFold(fold: nat -> nat, s0: bytes, t0: bytes) returns (same: bool)
    ensures same <==> EqualFold(fold, s0, t0)
  {
    var s, t := s0, t0;
    while s != [] && t != []
      invariant EqualFold(fold, s0, t0) <==> EqualFold(fold, s, t)
      decreases |s|
    {
      FoldStep(fold, s, t);
      var (sr, n) := DecodeRune(s);
      var (tr, m) := DecodeRune(t);
      if fold(sr) != fold(tr) {
        return false;
      }
      s, t := s[n..], t[m..];
    }
    same := |s| == |t|;
  }

  // Whatever routine is chosen for the name s, comparing with it decides EqualFold.
  method NameMatches(fold: nat -> nat, s: bytes, t: bytes) returns (same: bool)
    requires UnicodeFold(fold)
    ensures same <==> EqualFold(fold, s, t)
  {
    var r := FoldFunc(s);
    match r {
      case General => same := GeneralEqualFold(fold, s, t);
      case FoldRight => same := EqualFoldRight(fold, s, t);
      case AsciiFold => same := AsciiEqualFold(fold, s, t);
      case LetterFold => same := SimpleLetterEqualFold(fold, s, t);
    }
  }
}
