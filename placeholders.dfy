/**
 * The placeholder grammar of event texts, scanned left to right without
 * overlap the way the engine's case-insensitive patterns are:
 *
 *   slot        "(" P d ")"                 e.g. "(P1)", "(p2)"
 *   pronoun     "(" they|them|their|themself d ")"   e.g. "(They1)"
 *   compound    slot "(" A "/" B ")"        e.g. "(P1)(man/person)"
 *
 * where d is a digit 1-9, keywords match ignoring ASCII case, A is a
 * non-empty run of letters, digits, ' _ - & and space, and B the same
 * without space.
 */
module Placeholders {
  import opened Wrappers
  import opened Text

  const SlotKeyword := "p"
  const SubjectKeyword := "they"
  const ObjectKeyword := "them"
  const PossessiveKeyword := "their"
  const ReflexiveKeyword := "themself"

  predicate IsSlotDigit(c: char) { '1' <= c <= '9' }

  /** A placeholder "(" kw d ")" starts at index `i` of `s`. */
  predicate TokenAt(s: string, i: nat, kw: string) {
    && i + |kw| + 3 <= |s|
    && s[i] == '('
    && LowerStr(s[i + 1..i + 1 + |kw|]) == kw
    && IsSlotDigit(s[i + 1 + |kw|])
    && s[i + 2 + |kw|] == ')'
  }

  /** One recognised placeholder: its exact text and its digit. */
  datatype Placeholder = Placeholder(text: string, digit: nat)

  predicate WellFormed(p: Placeholder, kw: string) {
    && |p.text| == |kw| + 3
    && p.text[0] == '('
    && LowerStr(p.text[1..1 + |kw|]) == kw
    && 1 <= p.digit <= 9
    && p.text[|kw| + 1] == DigitChar(p.digit)
    && p.text[|kw| + 2] == ')'
  }

  function ScanFrom(s: string, kw: string, i: nat): seq<Placeholder>
    decreases |s| - i
  {
    if i + |kw| + 3 > |s| then []
    else if TokenAt(s, i, kw) then
      [Placeholder(s[i..i + |kw| + 3], DigitValue(s[i + 1 + |kw|]))] + ScanFrom(s, kw, i + |kw| + 3)
    else ScanFrom(s, kw, i + 1)
  }

  /** The placeholders with keyword `kw` in `s`, in text order. */
  function Tokens(s: string, kw: string): seq<Placeholder> {
    ScanFrom(s, kw, 0)
  }

  lemma {:induction false} ScanWellFormed(s: string, kw: string, i: nat)
    ensures forall p :: p in ScanFrom(s, kw, i) ==> WellFormed(p, kw)
    decreases |s| - i
  {
    if i + |kw| + 3 <= |s| {
      if TokenAt(s, i, kw) {
        ScanWellFormed(s, kw, i + |kw| + 3);
        SliceOfSlice(s, i, i + |kw| + 3, 1, 1 + |kw|);
      } else {
        ScanWellFormed(s, kw, i + 1);
      }
    }
  }

  lemma TokensWellFormed(s: string, kw: string)
    ensures forall p :: p in Tokens(s, kw) ==> WellFormed(p, kw)
  {
    ScanWellFormed(s, kw, 0);
  }

  /** No placeholder starts where there is no "(". */
  lemma {:induction false} ScanWithoutParen(s: string, kw: string, i: nat)
    requires forall j :: i <= j < |s| ==> s[j] != '('
    ensures ScanFrom(s, kw, i) == []
    decreases |s| - i
  {
    if i + |kw| + 3 <= |s| {
      ScanWithoutParen(s, kw, i + 1);
    }
  }

  /**
   * `get_tribute_num`: the digit of a placeholder is its second-to-last
   * character. The source unwraps both the character and the digit, so the
   * text must have one there.
   */
  function GetTributeNum(s: string): (d: nat)
    requires |s| >= 2 && IsDigit(s[|s| - 2])
    ensures d < 10 && DigitChar(d) == s[|s| - 2]
  {
    DigitValue(s[|s| - 2])
  }

  /** Every recognised placeholder carries its digit where `GetTributeNum` reads it. */
  lemma TributeNumOfPlaceholder(p: Placeholder, kw: string)
    requires WellFormed(p, kw)
    ensures GetTributeNum(p.text) == p.digit
  {
  }

  /** The upper-cased key of slot `d`, e.g. "(P3)". */
  function SlotKey(d: nat): (k: string)
    requires d < 10
    ensures |k| == 4
  {
    "(P" + [DigitChar(d)] + ")"
  }

  /** A slot key opens with "(" and closes with ")". */
  lemma SlotKeyShape(d: nat)
    requires d < 10
    ensures SlotKey(d)[0] == '(' && SlotKey(d)[3] == ')'
  {
  }

  lemma SlotKeyInjective(d: nat, e: nat)
    requires d < 10 && e < 10
    requires SlotKey(d) == SlotKey(e)
    ensures d == e
  {
    assert SlotKey(d)[2] == SlotKey(e)[2];
  }

  /** "(p3)" and "(P3)" both have the key "(P3)". */
  lemma UpperSlotToken(p: Placeholder)
    requires WellFormed(p, SlotKeyword)
    ensures UpperStr(p.text) == SlotKey(p.digit)
  {
    assert LowerStr(p.text[1..2])[0] == ToLower(p.text[1]);
    assert p.text[1] == 'p' || p.text[1] == 'P';
  }

  // ---- compound words: "(Pd)(A/B)" ----

  predicate InWordA(c: char) {
    || 'a' <= c <= 'z' || 'A' <= c <= 'Z' || '0' <= c <= '9'
    || c == '\'' || c == '_' || c == '-' || c == '&' || c == ' '
  }

  predicate InWordB(c: char) { InWordA(c) && c != ' ' }

  predicate InWord(c: char, spaces: bool) { if spaces then InWordA(c) else InWordB(c) }

  /** End of the longest run of word characters starting at `j`. */
  function RunEnd(s: string, j: nat, spaces: bool): (e: nat)
    requires j <= |s|
    ensures j <= e <= |s|
    ensures forall k :: j <= k < e ==> InWord(s[k], spaces)
    ensures e < |s| ==> !InWord(s[e], spaces)
    decreases |s| - j
  {
    if j == |s| || !InWord(s[j], spaces) then j else RunEnd(s, j + 1, spaces)
  }

  /** A compound placeholder: the whole text, its slot token and digit, and the two words. */
  datatype Compound = Compound(text: string, token: string, digit: nat, first: string, second: string)

  predicate CompoundWellFormed(c: Compound) {
    && WellFormed(Placeholder(c.token, c.digit), SlotKeyword)
    && c.text == c.token + "(" + c.first + "/" + c.second + ")"
    && |c.first| > 0 && (forall k :: 0 <= k < |c.first| ==> InWordA(c.first[k]))
    && |c.second| > 0 && (forall k :: 0 <= k < |c.second| ==> InWordB(c.second[k]))
  }

  /** The compound placeholder starting at index `i` of `s`, if there is one. */
  function CompoundAt(s: string, i: nat): (r: Option<Compound>)
    ensures r.Some? ==> CompoundWellFormed(r.value)
  {
    if !(TokenAt(s, i, SlotKeyword) && i + 4 < |s| && s[i + 4] == '(') then None
    else
      var a := RunEnd(s, i + 5, true);
      if a == i + 5 || a >= |s| || s[a] != '/' then None
      else
        var b := RunEnd(s, a + 1, false);
        if b == a + 1 || b >= |s| || s[b] != ')' then None
        else
          CompoundPieces(s, i, a, b);
          Some(Compound(s[i..b + 1], s[i..i + 4], DigitValue(s[i + 2]), s[i + 5..a], s[a + 1..b]))
  }

  function CompoundsFrom(s: string, i: nat): (cs: seq<Compound>)
    ensures forall c :: c in cs ==> CompoundWellFormed(c)
    decreases |s| - i
  {
    if i >= |s| then []
    else match CompoundAt(s, i)
      case Some(c) => [c] + CompoundsFrom(s, i + |c.text|)
      case None => CompoundsFrom(s, i + 1)
  }

  /** The compound placeholders of `s`, in text order. */
  function Compounds(s: string): (cs: seq<Compound>)
    ensures forall c :: c in cs ==> CompoundWellFormed(c)
  {
    CompoundsFrom(s, 0)
  }

  /** The pieces `CompoundAt` cuts out of `s` form a well-formed compound. */
  lemma CompoundPieces(s: string, i: nat, a: nat, b: nat)
    requires TokenAt(s, i, SlotKeyword) && i + 5 < a && a + 1 < b < |s|
    requires s[i + 4] == '(' && s[a] == '/' && s[b] == ')'
    requires forall k :: i + 5 <= k < a ==> InWordA(s[k])
    requires forall k :: a + 1 <= k < b ==> InWordB(s[k])
    ensures CompoundWellFormed(Compound(s[i..b + 1], s[i..i + 4], DigitValue(s[i + 2]), s[i + 5..a], s[a + 1..b]))
  {
    var token, first, second := s[i..i + 4], s[i + 5..a], s[a + 1..b];
    SliceOfSlice(s, i, i + 4, 1, 2);
    assert WellFormed(Placeholder(token, DigitValue(s[i + 2])), SlotKeyword);
    CompoundText(s, i, a, b);
    assert forall k :: 0 <= k < |first| ==> first[k] == s[i + 5 + k];
    assert forall k :: 0 <= k < |second| ==> second[k] == s[a + 1 + k];
  }

  lemma CompoundText(s: string, i: nat, a: nat, b: nat)
    requires i + 5 < a < b < |s|
    requires s[i + 4] == '(' && s[a] == '/' && s[b] == ')'
    ensures s[i..b + 1] == s[i..i + 4] + "(" + s[i + 5..a] + "/" + s[a + 1..b] + ")"
  {
    var t1 := s[a + 1..b + 1];
    assert t1 == s[a + 1..b] + ")";
    var t2 := s[a..b + 1];
    assert t2 == "/" + t1;
    var t3 := s[i + 5..b + 1];
    assert t3 == s[i + 5..a] + t2;
    var t4 := s[i + 4..b + 1];
    assert t4 == "(" + t3;
    assert s[i..b + 1] == s[i..i + 4] + t4;
  }

  /** The lower-cased text of a placeholder is its keyword between "(" and the digit and ")". */
  lemma LowerToken(p: Placeholder, kw: string)
    requires WellFormed(p, kw)
    ensures LowerStr(p.text) == "(" + kw + [DigitChar(p.digit)] + ")"
  {
    var l := LowerStr(p.text);
    var w := "(" + kw + [DigitChar(p.digit)] + ")";
    forall j | 0 <= j < |l| ensures l[j] == w[j] {
      if 1 <= j <= |kw| {
        assert l[j] == LowerStr(p.text[1..1 + |kw|])[j - 1];
      }
    }
  }

  /** The part of a compound after its slot token: "(" A "/" B ")". */
  function CompoundTail(c: Compound): string {
    "(" + c.first + "/" + c.second + ")"
  }

  /** In the tail only the first character is "(" and only the last is ")". */
  lemma CompoundTailParens(c: Compound)
    requires CompoundWellFormed(c)
    ensures |CompoundTail(c)| >= 5
    ensures forall j :: 0 < j < |CompoundTail(c)| ==> CompoundTail(c)[j] != '('
    ensures forall j :: 0 <= j < |CompoundTail(c)| - 1 ==> CompoundTail(c)[j] != ')'
  {
    var t := CompoundTail(c);
    forall j | 0 < j < |t| - 1 ensures t[j] != '(' && t[j] != ')' {
      if j <= |c.first| {
        assert t[j] == c.first[j - 1];
      } else if j > |c.first| + 1 {
        assert t[j] == c.second[j - |c.first| - 2];
      }
    }
  }

  /** Inside a compound the only slot token is its own. */
  lemma CompoundHasOneSlot(c: Compound)
    requires CompoundWellFormed(c)
    ensures Tokens(c.text, SlotKeyword) == [Placeholder(c.token, c.digit)]
  {
    var s := c.text;
    var t := CompoundTail(c);
    assert s == c.token + t;
    CompoundTailParens(c);
    assert s[1..2] == c.token[1..2];
    assert TokenAt(s, 0, SlotKeyword);
    assert s[0..4] == c.token;
    assert !TokenAt(s, 4, SlotKeyword) by {
      assert s[7] == t[3];
    }
    ScanWithoutParen(s, SlotKeyword, 5);
    assert ScanFrom(s, SlotKeyword, 4) == ScanFrom(s, SlotKeyword, 5);
  }
}
