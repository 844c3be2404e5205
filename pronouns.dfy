/**
 * The grammatical-pronoun category of a tribute and the four case tables
 * (subject, object, possessive, reflexive) used to render pronoun
 * placeholders such as "(they1)" or "(Their2)".
 */
module Pronouns {
  import opened Text

  datatype Pronouns = He | She | They | It

  /** Upper-cases the first character of `s` and keeps the rest. */
  function UppercaseFirstLetter(s: string): (r: string)
    ensures |r| == |s|
    ensures |s| > 0 ==> r[1..] == s[1..] && ToLower(r[0]) == ToLower(s[0])
    ensures |s| > 0 && IsLower(s[0]) ==> IsUpper(r[0])
    ensures (|s| == 0 || !IsLower(s[0])) ==> r == s
  {
    if |s| == 0 then [] else [ToUpper(s[0])] + s[1..]
  }

  /**
   * Whether a placeholder is written capitalised: its second character, the
   * one after the opening parenthesis, is upper case. The placeholder must
   * have at least two characters.
   */
  predicate IsFirstCharacterUpper(s: string): (b: bool)
    requires |s| >= 2
    ensures b <==> ToLower(s[1]) != s[1]
    ensures b ==> IsLower(ToLower(s[1])) && ToUpper(ToLower(s[1])) == s[1]
  {
    IsUpper(s[1])
  }

  /** A lower-case table entry, capitalised when the placeholder is. */
  function Capitalised(entry: string, placeholder: string): (r: string)
    requires |placeholder| >= 2
    requires |entry| > 0 && IsLower(entry[0])
    ensures |r| == |entry| && r[1..] == entry[1..]
    ensures LowerStr(r) == LowerStr(entry)
    ensures IsUpper(r[0]) <==> IsUpper(placeholder[1])
    ensures !IsUpper(placeholder[1]) ==> r == entry
  {
    var r := if IsFirstCharacterUpper(placeholder) then UppercaseFirstLetter(entry) else entry;
    assert LowerStr(r) == LowerStr(entry) by {
      forall i | 0 <= i < |r| ensures LowerStr(r)[i] == LowerStr(entry)[i] {
        if i > 0 { assert r[i] == r[1..][i - 1]; }
      }
    }
    r
  }

  function SubjectEntry(p: Pronouns): (e: string)
    ensures |e| > 0 && IsLower(e[0]) && LowerStr(e) == e
  {
    match p
    case He => "he"
    case She => "she"
    case They => "they"
    case It => "it"
  }

  function ObjectEntry(p: Pronouns): (e: string)
    ensures |e| > 0 && IsLower(e[0]) && LowerStr(e) == e
  {
    match p
    case He => "him"
    case She => "her"
    case They => "them"
    case It => "it"
  }

  function PossessiveEntry(p: Pronouns): (e: string)
    ensures |e| > 0 && IsLower(e[0]) && LowerStr(e) == e
  {
    match p
    case He => "his"
    case She => "her"
    case They => "their"
    case It => "its"
  }

  function ReflexiveEntry(p: Pronouns): (e: string)
    ensures |e| > 0 && IsLower(e[0]) && LowerStr(e) == e
  {
    match p
    case He => "himself"
    case She => "herself"
    case They => "themself"
    case It => "itself"
  }

  /** `they`: the subject form of `p`, capitalised like `placeholder`. */
  function SubjectPronoun(p: Pronouns, placeholder: string): (r: string)
    requires |placeholder| >= 2
    ensures |r| == |SubjectEntry(p)| && r[1..] == SubjectEntry(p)[1..]
    ensures LowerStr(r) == SubjectEntry(p)
    ensures IsUpper(r[0]) <==> IsUpper(placeholder[1])
    ensures !IsUpper(placeholder[1]) ==> r == SubjectEntry(p)
  {
    Capitalised(SubjectEntry(p), placeholder)
  }

  /** `them`: the object form of `p`, capitalised like `placeholder`. */
  function ObjectPronoun(p: Pronouns, placeholder: string): (r: string)
    requires |placeholder| >= 2
    ensures |r| == |ObjectEntry(p)| && r[1..] == ObjectEntry(p)[1..]
    ensures LowerStr(r) == ObjectEntry(p)
    ensures IsUpper(r[0]) <==> IsUpper(placeholder[1])
    ensures !IsUpper(placeholder[1]) ==> r == ObjectEntry(p)
  {
    Capitalised(ObjectEntry(p), placeholder)
  }

  /** `their`: the possessive form of `p`, capitalised like `placeholder`. */
  function PossessivePronoun(p: Pronouns, placeholder: string): (r: string)
    requires |placeholder| >= 2
    ensures |r| == |PossessiveEntry(p)| && r[1..] == PossessiveEntry(p)[1..]
    ensures LowerStr(r) == PossessiveEntry(p)
    ensures IsUpper(r[0]) <==> IsUpper(placeholder[1])
    ensures !IsUpper(placeholder[1]) ==> r == PossessiveEntry(p)
  {
    Capitalised(PossessiveEntry(p), placeholder)
  }

  /** `themself`: the reflexive form of `p`, capitalised like `placeholder`. */
  function ReflexivePronoun(p: Pronouns, placeholder: string): (r: string)
    requires |placeholder| >= 2
    ensures |r| == |ReflexiveEntry(p)| && r[1..] == ReflexiveEntry(p)[1..]
    ensures LowerStr(r) == ReflexiveEntry(p)
    ensures IsUpper(r[0]) <==> IsUpper(placeholder[1])
    ensures !IsUpper(placeholder[1]) ==> r == ReflexiveEntry(p)
  {
    Capitalised(ReflexiveEntry(p), placeholder)
  }
}
