/**
 * Event templates and their resolution against a pool of tributes.
 *
 * A template's text names its participants by slot placeholders "(P1)",
 * "(P2)", ...; resolution binds a distinct random tribute of the pool to each
 * distinct slot, decides from the template's `killed` and `killers` lists who
 * dies and who is credited, and renders the text in a fixed order: subject,
 * object, possessive and reflexive pronouns, then compound words, then names.
 */
module Event {
  import opened Wrappers
  import opened Text
  import opened Pronouns
  import opened Tribute
  import opened Placeholders
  import opened Seqs

  datatype EventCategory = Bloodbath | Day | FallenTributes | Night | End

  /** A template as loaded from its data file; `killed` and `killers` hold slot keys such as "(P1)". */
  datatype Event = Event(
    fileName: string,
    text: string,
    killed: seq<string>,
    killers: seq<string>,
    category: EventCategory,
    weight: int)

  /** A resolved event: the rendered text, the ids of victims and killers, and the bound tributes. */
  datatype EventResult = EventResult(
    text: string,
    killed: seq<nat>,
    killers: seq<nat>,
    tributes: seq<Tribute>)

  datatype EventError =
    | MissingPlayerIdentifier(event: string, playerNum: int)
    | MissingFieldsError(event: string)

  /** `EventResult::new`: the text with no participants yet. */
  function NewResult(text: string): (r: EventResult)
    ensures r.text == text
    ensures r.killed == [] && r.killers == [] && r.tributes == []
  {
    EventResult(text, [], [], [])
  }

  // ---- slots ----

  /** The distinct digits of the placeholders `caps`. */
  ghost function DigitSet(caps: seq<Placeholder>): set<nat> {
    if caps == [] then {} else DigitSet(caps[..|caps| - 1]) + {caps[|caps| - 1].digit}
  }

  lemma {:induction false} DigitSetMembers(caps: seq<Placeholder>)
    ensures forall d :: d in DigitSet(caps) <==> exists i :: 0 <= i < |caps| && caps[i].digit == d
  {
    if caps != [] {
      var r := caps[..|caps| - 1];
      DigitSetMembers(r);
      forall d | d in DigitSet(r) ensures exists i :: 0 <= i < |caps| && caps[i].digit == d {
        var i :| 0 <= i < |r| && r[i].digit == d;
        assert caps[i] == r[i];
      }
      forall i | 0 <= i < |caps| ensures caps[i].digit in DigitSet(caps) {
        if i < |r| {
          assert r[i] == caps[i];
        }
      }
    }
  }

  lemma DigitSetPrefix(caps: seq<Placeholder>, i: nat)
    requires i <= |caps|
    ensures DigitSet(caps[..i]) <= DigitSet(caps)
  {
    DigitSetMembers(caps[..i]);
    DigitSetMembers(caps);
    forall d | d in DigitSet(caps[..i]) ensures d in DigitSet(caps) {
      var k :| 0 <= k < i && caps[..i][k].digit == d;
      assert caps[k].digit == d;
    }
  }

  lemma DigitSetStep(caps: seq<Placeholder>, i: nat)
    requires i < |caps|
    ensures DigitSet(caps[..i + 1]) == DigitSet(caps[..i]) + {caps[i].digit}
  {
    assert caps[..i + 1][..i] == caps[..i];
  }

  /** Every slot placeholder has a digit 1-9 and upper-cases to that digit's key. */
  lemma SlotTokenDigits(text: string)
    ensures forall i :: 0 <= i < |Tokens(text, SlotKeyword)| ==>
      1 <= Tokens(text, SlotKeyword)[i].digit <= 9 &&
      UpperStr(Tokens(text, SlotKeyword)[i].text) == SlotKey(Tokens(text, SlotKeyword)[i].digit)
  {
    var caps := Tokens(text, SlotKeyword);
    TokensWellFormed(text, SlotKeyword);
    forall i | 0 <= i < |caps|
      ensures 1 <= caps[i].digit <= 9 && UpperStr(caps[i].text) == SlotKey(caps[i].digit)
    {
      assert caps[i] in caps;
      UpperSlotToken(caps[i]);
    }
  }

  /** The distinct digits of the slot placeholders of `text`. */
  ghost function SlotDigits(text: string): set<nat> {
    DigitSet(Tokens(text, SlotKeyword))
  }

  ghost function RequiredCount(text: string): nat {
    |SlotDigits(text)|
  }

  /**
   * `get_num_tributes_required`: the number of distinct upper-cased slot
   * placeholders, so "(P1)" and "(p1)" count once.
   */
  method GetNumTributesRequired(e: Event) returns (n: nat)
    ensures n == RequiredCount(e.text)
  {
    var caps := Tokens(e.text, SlotKeyword);
    SlotTokenDigits(e.text);
    var collection: seq<string> := [];
    ghost var seen: set<nat> := {};
    for i := 0 to |caps|
      invariant seen == DigitSet(caps[..i])
      invariant forall d :: d in seen ==> d < 10
      invariant forall d :: d < 10 ==> (SlotKey(d) in collection <==> d in seen)
      invariant |collection| == |seen|
    {
      DigitSetStep(caps, i);
      var key := UpperStr(caps[i].text);
      ghost var d := caps[i].digit;
      forall d' | d' < 10 && SlotKey(d') == key ensures d' == d {
        SlotKeyInjective(d', d);
      }
      if key !in collection {
        collection := collection + [key];
      }
      seen := seen + {d};
    }
    assert caps[..|caps|] == caps;
    n := |collection|;
  }

  // ---- bindings in slot order ----

  /** A binding of slot digits to tributes. */
  ghost predicate SlotMap(m: map<nat, Tribute>) {
    forall d :: d in m ==> 1 <= d <= 9
  }

  /** The bound slots below `k`, ascending. */
  function SlotsBelow(m: map<nat, Tribute>, k: nat): (ds: seq<nat>)
    ensures forall i :: 0 <= i < |ds| ==> ds[i] in m && ds[i] < k
    ensures forall i, j :: 0 <= i < j < |ds| ==> ds[i] < ds[j]
    ensures forall d :: d in m && d < k ==> d in ds
  {
    if k == 0 then [] else SlotsBelow(m, k - 1) + (if k - 1 in m then [k - 1] else [])
  }

  /** All bound slots in ascending digit order, as sorting by `get_tribute_num` orders them. */
  function SlotOrder(m: map<nat, Tribute>): (ds: seq<nat>)
    requires SlotMap(m)
    ensures forall i :: 0 <= i < |ds| ==> ds[i] in m && 1 <= ds[i] <= 9
    ensures forall i, j :: 0 <= i < j < |ds| ==> ds[i] < ds[j]
    ensures forall d :: d in m <==> d in ds
  {
    SlotsBelow(m, 10)
  }

  /** The tributes bound to the slots below `k`, in ascending slot order. */
  function BoundBelow(m: map<nat, Tribute>, k: nat): seq<Tribute>
  {
    if k == 0 then [] else BoundBelow(m, k - 1) + (if k - 1 in m then [m[k - 1]] else [])
  }

  /** The bound tributes, sorted by slot digit. */
  function Bound(m: map<nat, Tribute>): seq<Tribute>
  {
    BoundBelow(m, 10)
  }

  /** Position `i` of the bound tributes holds the tribute of the `i`-th bound slot. */
  lemma {:induction false} BoundBelowSlots(m: map<nat, Tribute>, k: nat)
    ensures |BoundBelow(m, k)| == |SlotsBelow(m, k)|
    ensures forall i :: 0 <= i < |SlotsBelow(m, k)| ==> BoundBelow(m, k)[i] == m[SlotsBelow(m, k)[i]]
  {
    if k > 0 {
      BoundBelowSlots(m, k - 1);
    }
  }

  lemma BoundSlots(m: map<nat, Tribute>)
    requires SlotMap(m)
    ensures |Bound(m)| == |SlotOrder(m)|
    ensures forall i :: 0 <= i < |SlotOrder(m)| ==> Bound(m)[i] == m[SlotOrder(m)[i]]
  {
    BoundBelowSlots(m, 10);
  }

  /** Binding one more slot adds exactly its tribute to the bound ones. */
  lemma {:induction false} BindMultiset(m: map<nat, Tribute>, d: nat, t: Tribute, k: nat)
    requires d !in m
    ensures multiset(BoundBelow(m[d := t], k))
         == multiset(BoundBelow(m, k)) + (if d < k then multiset{t} else multiset{})
  {
    if k > 0 {
      BindMultiset(m, d, t, k - 1);
      var m' := m[d := t];
      if k - 1 == d {
        assert BoundBelow(m', k) == BoundBelow(m', k - 1) + [t];
        assert BoundBelow(m, k) == BoundBelow(m, k - 1);
      } else if k - 1 in m {
        assert BoundBelow(m', k) == BoundBelow(m', k - 1) + [m[k - 1]];
        assert BoundBelow(m, k) == BoundBelow(m, k - 1) + [m[k - 1]];
      } else {
        assert BoundBelow(m', k) == BoundBelow(m', k - 1);
        assert BoundBelow(m, k) == BoundBelow(m, k - 1);
      }
    }
  }

  lemma BoundCount(m: map<nat, Tribute>)
    requires SlotMap(m)
    ensures |Bound(m)| == |m.Keys|
  {
    BoundSlots(m);
    var ds := SlotOrder(m);
    var s := set i | 0 <= i < |ds| :: ds[i];
    assert s == m.Keys;
    DistinctCard(ds);
  }

  lemma {:induction false} DistinctCard(ds: seq<nat>)
    requires forall i, j :: 0 <= i < j < |ds| ==> ds[i] < ds[j]
    ensures |set i | 0 <= i < |ds| :: ds[i]| == |ds|
  {
    if ds != [] {
      var r := ds[..|ds| - 1];
      DistinctCard(r);
      var s := set i | 0 <= i < |ds| :: ds[i];
      var sr := set i | 0 <= i < |r| :: r[i];
      assert s == sr + {ds[|ds| - 1]};
      assert ds[|ds| - 1] !in sr;
    }
  }

  // ---- roles ----

  /** A bound tribute as it appears in the result: killed when its slot key is a victim. */
  function Mark(e: Event, d: nat, t: Tribute): Tribute
    requires d < 10
  {
    if SlotKey(d) in e.killed then Kill(t) else t
  }

  /** The bound tributes of the slots `ds`, each marked by its role. */
  function RoleTributes(e: Event, m: map<nat, Tribute>, ds: seq<nat>): seq<Tribute>
    requires forall i :: 0 <= i < |ds| ==> ds[i] in m && ds[i] < 10
  {
    seq(|ds|, i requires 0 <= i < |ds| => Mark(e, ds[i], m[ds[i]]))
  }

  /** The ids of the tributes of the slots `ds` whose slot key is in `role`. */
  function RoleIds(m: map<nat, Tribute>, ds: seq<nat>, role: seq<string>): seq<nat>
    requires forall i :: 0 <= i < |ds| ==> ds[i] in m && ds[i] < 10
  {
    if ds == [] then []
    else
      var d := ds[|ds| - 1];
      RoleIds(m, ds[..|ds| - 1], role) + (if SlotKey(d) in role then [m[d].id] else [])
  }

  /** The result before rendering: roles decided, text untouched. */
  function Assigned(e: Event, m: map<nat, Tribute>): EventResult
    requires SlotMap(m)
  {
    var ds := SlotOrder(m);
    EventResult(e.text, RoleIds(m, ds, e.killed), RoleIds(m, ds, e.killers), RoleTributes(e, m, ds))
  }

  /** Exactly one of the two role lists is empty. */
  predicate Asymmetric(r: EventResult) {
    (|r.killers| > 0 && |r.killed| == 0) || (|r.killed| > 0 && |r.killers| == 0)
  }

  /** The keys of the slots `ds` that are listed in `role`. */
  ghost function RoleKeys(ds: seq<nat>, role: seq<string>): set<string>
    requires forall i :: 0 <= i < |ds| ==> ds[i] < 10
  {
    set i | 0 <= i < |ds| && SlotKey(ds[i]) in role :: SlotKey(ds[i])
  }

  /**
   * Over distinct slots a role lists one id per slot whose key it names, so
   * it lists no more ids than the template names keys for that role.
   */
  lemma {:induction false} RoleIdsAtMost(m: map<nat, Tribute>, ds: seq<nat>, role: seq<string>)
    requires forall i :: 0 <= i < |ds| ==> ds[i] in m && ds[i] < 10
    requires forall i, j :: 0 <= i < j < |ds| ==> ds[i] < ds[j]
    ensures |RoleIds(m, ds, role)| <= |role|
  {
    RoleKeysCount(m, ds, role);
    assert RoleKeys(ds, role) <= set k | k in role;
    SubsetSize(RoleKeys(ds, role), set k | k in role);
    ElementsSize(role);
  }

  lemma {:induction false} RoleKeysCount(m: map<nat, Tribute>, ds: seq<nat>, role: seq<string>)
    requires forall i :: 0 <= i < |ds| ==> ds[i] in m && ds[i] < 10
    requires forall i, j :: 0 <= i < j < |ds| ==> ds[i] < ds[j]
    ensures |RoleIds(m, ds, role)| == |RoleKeys(ds, role)|
  {
    if ds != [] {
      var r, d := ds[..|ds| - 1], ds[|ds| - 1];
      RoleKeysCount(m, r, role);
      RoleKeysSnoc(ds, role);
      if SlotKey(d) in role {
        assert SlotKey(d) !in RoleKeys(r, role) by {
          if SlotKey(d) in RoleKeys(r, role) {
            var i :| 0 <= i < |r| && SlotKey(r[i]) in role && SlotKey(r[i]) == SlotKey(d);
            SlotKeyInjective(r[i], d);
          }
        }
      }
    }
  }

  lemma RoleKeysSnoc(ds: seq<nat>, role: seq<string>)
    requires ds != [] && forall i :: 0 <= i < |ds| ==> ds[i] < 10
    ensures var d := ds[|ds| - 1];
      RoleKeys(ds, role) == RoleKeys(ds[..|ds| - 1], role) + (if SlotKey(d) in role then {SlotKey(d)} else {})
  {
    var r := ds[..|ds| - 1];
    assert forall i :: 0 <= i < |r| ==> r[i] == ds[i];
  }

  /** An id is listed for a role iff one of the slots names a tribute with that id in that role. */
  lemma {:induction false} RoleIdsMembers(m: map<nat, Tribute>, ds: seq<nat>, role: seq<string>)
    requires forall i :: 0 <= i < |ds| ==> ds[i] in m && ds[i] < 10
    ensures forall id :: id in RoleIds(m, ds, role) <==>
      exists i :: 0 <= i < |ds| && SlotKey(ds[i]) in role && m[ds[i]].id == id
    ensures RoleIds(m, ds, role) == [] <==> forall i :: 0 <= i < |ds| ==> SlotKey(ds[i]) !in role
  {
    if ds != [] {
      var r := ds[..|ds| - 1];
      RoleIdsMembers(m, r, role);
      forall id | (exists i :: 0 <= i < |ds| && SlotKey(ds[i]) in role && m[ds[i]].id == id)
        ensures id in RoleIds(m, ds, role)
      {
        var i :| 0 <= i < |ds| && SlotKey(ds[i]) in role && m[ds[i]].id == id;
        if i < |r| {
          assert r[i] == ds[i];
        }
      }
      if RoleIds(m, ds, role) == [] {
        forall i | 0 <= i < |ds| ensures SlotKey(ds[i]) !in role {
          if i < |r| {
            assert r[i] == ds[i];
          }
        }
      }
    }
  }

  // ---- pronoun passes ----

  /**
   * The pronoun form a placeholder asks for, chosen by which keyword its
   * lower-cased text contains, tested in the order they, themself, their, them.
   */
  function PronounFor(token: string, p: Pronouns): Option<string>
    requires |token| >= 2
  {
    var lower := LowerStr(token);
    if Contains(lower, SubjectKeyword) then Some(SubjectPronoun(p, token))
    else if Contains(lower, ReflexiveKeyword) then Some(ReflexivePronoun(p, token))
    else if Contains(lower, PossessiveKeyword) then Some(PossessivePronoun(p, token))
    else if Contains(lower, ObjectKeyword) then Some(ObjectPronoun(p, token))
    else None
  }

  lemma AbsentCharNotContained(s: string, p: string, k: nat)
    requires k < |p|
    requires forall j :: 0 <= j < |s| ==> s[j] != p[k]
    ensures !Contains(s, p)
  {
    forall i: nat | i <= |s| ensures !OccursAt(s, p, i) {
      if i + |p| <= |s| {
        assert s[i..i + |p|][k] != p[k];
      }
    }
  }

  lemma KeywordContained(p: Placeholder, kw: string)
    requires WellFormed(p, kw)
    ensures Contains(LowerStr(p.text), kw)
  {
    LowerToken(p, kw);
    assert OccursAt(LowerStr(p.text), kw, 1);
  }

  /** A subject placeholder such as "(they1)" gets the subject form. */
  lemma SubjectSelected(t: Placeholder, p: Pronouns)
    requires WellFormed(t, SubjectKeyword)
    ensures PronounFor(t.text, p) == Some(SubjectPronoun(p, t.text))
  {
    KeywordContained(t, SubjectKeyword);
  }

  /** A reflexive placeholder such as "(themself1)" gets the reflexive form. */
  lemma ReflexiveSelected(t: Placeholder, p: Pronouns)
    requires WellFormed(t, ReflexiveKeyword)
    ensures PronounFor(t.text, p) == Some(ReflexivePronoun(p, t.text))
  {
    var l := LowerStr(t.text);
    LowerToken(t, ReflexiveKeyword);
    assert forall j :: 0 <= j < |l| ==> l[j] != 'y';
    AbsentCharNotContained(l, SubjectKeyword, 3);
    KeywordContained(t, ReflexiveKeyword);
  }

  /** A possessive placeholder such as "(their1)" gets the possessive form. */
  lemma PossessiveSelected(t: Placeholder, p: Pronouns)
    requires WellFormed(t, PossessiveKeyword)
    ensures PronounFor(t.text, p) == Some(PossessivePronoun(p, t.text))
  {
    var l := LowerStr(t.text);
    LowerToken(t, PossessiveKeyword);
    assert forall j :: 0 <= j < |l| ==> l[j] != 'y' && l[j] != 's';
    AbsentCharNotContained(l, SubjectKeyword, 3);
    AbsentCharNotContained(l, ReflexiveKeyword, 4);
    KeywordContained(t, PossessiveKeyword);
  }

  /** An object placeholder such as "(them1)" gets the object form. */
  lemma ObjectSelected(t: Placeholder, p: Pronouns)
    requires WellFormed(t, ObjectKeyword)
    ensures PronounFor(t.text, p) == Some(ObjectPronoun(p, t.text))
  {
    var l := LowerStr(t.text);
    LowerToken(t, ObjectKeyword);
    assert forall j :: 0 <= j < |l| ==> l[j] != 'y' && l[j] != 's' && l[j] != 'i';
    AbsentCharNotContained(l, SubjectKeyword, 3);
    AbsentCharNotContained(l, ReflexiveKeyword, 4);
    AbsentCharNotContained(l, PossessiveKeyword, 3);
    KeywordContained(t, ObjectKeyword);
  }

  /**
   * One pronoun pass over the placeholders `toks` of `event`: each resolves
   * to tribute `digit - 1` of `tributes` (an error when there is none) and
   * every occurrence of its exact text is replaced by the pronoun.
   */
  function PronounSteps(text: string, toks: seq<Placeholder>, kw: string, tributes: seq<Tribute>, event: string)
    : Result<string, EventError>
    requires forall t :: t in toks ==> WellFormed(t, kw)
    decreases |toks|
  {
    if toks == [] then Ok(text)
    else
      var t := toks[0];
      assert WellFormed(t, kw);
      if t.digit - 1 >= |tributes| then Err(MissingPlayerIdentifier(event, t.digit - 1))
      else PronounSteps(Substitute(text, t, tributes[t.digit - 1].pronouns), toks[1..], kw, tributes, event)
  }

  /** Every occurrence of the placeholder's exact text replaced by the pronoun it selects, if any. */
  function Substitute(text: string, t: Placeholder, p: Pronouns): string
    requires |t.text| >= 2
  {
    match PronounFor(t.text, p)
    case Some(w) => ReplaceAll(text, t.text, w)
    case None => text
  }

  /** One placeholder of the pronoun pass: its pronoun, if it selects one, replaces all its occurrences. */
  method ReplaceToken(text: string, t: Placeholder, p: Pronouns) returns (r: string)
    requires |t.text| >= 2
    ensures r == Substitute(text, t, p)
  {
    r := text;
    var prns := PronounFor(t.text, p);
    if prns.Some? {
      r := ReplaceAll(text, t.text, prns.value);
    }
  }

  function PronounPass(res: EventResult, kw: string): Result<EventResult, EventError> {
    TokensWellFormed(res.text, kw);
    match PronounSteps(res.text, Tokens(res.text, kw), kw, res.tributes, res.text)
    case Ok(t) => Ok(res.(text := t))
    case Err(err) => Err(err)
  }

  /** The pass from placeholder `i` on: fail at it, or substitute it and go on. */
  lemma PronounStepsHead(text: string, toks: seq<Placeholder>, i: nat, kw: string, tributes: seq<Tribute>, event: string)
    requires forall k :: 0 <= k < |toks| ==> WellFormed(toks[k], kw)
    requires i < |toks|
    ensures var t := toks[i];
      PronounSteps(text, toks[i..], kw, tributes, event)
      == if t.digit - 1 >= |tributes| then Err(MissingPlayerIdentifier(event, t.digit - 1))
         else PronounSteps(Substitute(text, t, tributes[t.digit - 1].pronouns), toks[i + 1..], kw, tributes, event)
  {
    assert toks[i..][0] == toks[i] && toks[i..][1..] == toks[i + 1..];
  }

  /** `replace_pronouns`: one pass over the placeholders of keyword `kw`. */
  method ReplacePronouns(res: EventResult, kw: string) returns (r: Result<EventResult, EventError>)
    ensures r == PronounPass(res, kw)
  {
    var caps := Tokens(res.text, kw);
    TokensWellFormed(res.text, kw);
    var text := res.text;
    for i := 0 to |caps|
      invariant PronounSteps(res.text, caps, kw, res.tributes, res.text)
             == PronounSteps(text, caps[i..], kw, res.tributes, res.text)
    {
      assert caps[i] in caps;
      PronounStepsHead(text, caps, i, kw, res.tributes, res.text);
      var id := GetTributeNum(caps[i].text);
      TributeNumOfPlaceholder(caps[i], kw);
      if id - 1 >= |res.tributes| {
        assert PronounSteps(res.text, caps, kw, res.tributes, res.text) == Err(MissingPlayerIdentifier(res.text, id - 1));
        return Err(MissingPlayerIdentifier(res.text, id - 1));
      }
      var trib := res.tributes[id - 1];
      text := ReplaceToken(text, caps[i], trib.pronouns);
    }
    assert caps[|caps|..] == [];
    assert PronounSteps(res.text, caps, kw, res.tributes, res.text) == Ok(text);
    return Ok(res.(text := text));
  }

  // ---- compound words ----

  /**
   * The word a compound placeholder renders to: its slot token and the
   * parentheses taken out, the rest split at "/", the second piece for a
   * tribute whose pronouns are They and the first otherwise.
   */
  function CompoundWord(c: Compound, p: Pronouns): string
    requires CompoundWellFormed(c)
  {
    var words := ReplaceAll(ReplaceAll(ReplaceAll(c.text, c.token, ""), "(", ""), ")", "");
    CompoundStrip(c);
    var parts := Split(words, '/');
    if p == They then parts[1] else parts[0]
  }

  /** Stripping a compound leaves its two words around the "/", which splits them apart. */
  lemma CompoundStrip(c: Compound)
    requires CompoundWellFormed(c)
    ensures ReplaceAll(ReplaceAll(ReplaceAll(c.text, c.token, ""), "(", ""), ")", "") == c.first + "/" + c.second
    ensures Split(c.first + "/" + c.second, '/') == [c.first, c.second]
  {
    CompoundDropToken(c);
    CompoundDropParens(c);
    SplitPair(c.first, c.second, '/');
  }

  /** Removing the slot token from a compound leaves its tail. */
  lemma CompoundDropToken(c: Compound)
    requires CompoundWellFormed(c)
    ensures ReplaceAll(c.text, c.token, "") == CompoundTail(c)
  {
    var t := CompoundTail(c);
    CompoundTailParens(c);
    assert c.text == c.token + t;
    ReplaceAtFront(c.token, t, "");
    assert !Contains(t, c.token) by {
      forall i: nat | i <= |t| ensures !OccursAt(t, c.token, i) {
        if i + 4 <= |t| {
          if i == 0 {
            assert t[0..4][3] != c.token[3];
          } else {
            assert t[i..i + 4][0] != c.token[0];
          }
        }
      }
    }
    ReplaceAbsent(t, c.token, "");
  }

  /** Removing the parentheses from the tail leaves "A/B". */
  lemma CompoundDropParens(c: Compound)
    requires CompoundWellFormed(c)
    ensures ReplaceAll(ReplaceAll(CompoundTail(c), "(", ""), ")", "") == c.first + "/" + c.second
  {
    var t := CompoundTail(c);
    var mid := c.first + "/" + c.second;
    CompoundTailParens(c);
    assert t == "(" + (mid + ")");
    forall j | 0 <= j < |mid| ensures mid[j] != '(' && mid[j] != ')' {
      assert mid[j] == t[j + 1];
    }
    ReplaceSingleChar(t, '(');
    RemoveCharAppend("(", mid + ")", '(');
    RemoveCharAppend(mid, ")", '(');
    RemoveCharAbsent(mid, '(');
    assert RemoveChar(t, '(') == mid + ")";
    ReplaceSingleChar(mid + ")", ')');
    RemoveCharAppend(mid, ")", ')');
    RemoveCharAbsent(mid, ')');
  }

  /** A compound renders to its second word for They and to its first word otherwise. */
  lemma CompoundWordChoice(c: Compound, p: Pronouns)
    requires CompoundWellFormed(c)
    ensures CompoundWord(c, p) == if p == They then c.second else c.first
  {
    CompoundStrip(c);
  }

  /** The compound pass over the compounds `cs` of `event`. */
  function CompoundSteps(text: string, cs: seq<Compound>, tributes: seq<Tribute>, event: string)
    : Result<string, EventError>
    requires forall c :: c in cs ==> CompoundWellFormed(c)
    decreases |cs|
  {
    if cs == [] then Ok(text)
    else
      var c := cs[0];
      assert CompoundWellFormed(c);
      if c.digit - 1 >= |tributes| then Err(MissingPlayerIdentifier(event, c.digit - 1))
      else
        CompoundSteps(ReplaceAll(text, c.text, CompoundWord(c, tributes[c.digit - 1].pronouns)),
                      cs[1..], tributes, event)
  }

  /** The compound pass from compound `i` on: fail at it, or replace it and go on. */
  lemma CompoundStepsHead(text: string, cs: seq<Compound>, i: nat, tributes: seq<Tribute>, event: string)
    requires forall k :: 0 <= k < |cs| ==> CompoundWellFormed(cs[k])
    requires i < |cs|
    ensures var c := cs[i];
      CompoundSteps(text, cs[i..], tributes, event)
      == if c.digit - 1 >= |tributes| then Err(MissingPlayerIdentifier(event, c.digit - 1))
         else CompoundSteps(ReplaceAll(text, c.text, CompoundWord(c, tributes[c.digit - 1].pronouns)),
                            cs[i + 1..], tributes, event)
  {
    assert cs[i..][0] == cs[i] && cs[i..][1..] == cs[i + 1..];
  }

  function CompoundPass(res: EventResult): Result<EventResult, EventError> {
    match CompoundSteps(res.text, Compounds(res.text), res.tributes, res.text)
    case Ok(t) => Ok(res.(text := t))
    case Err(err) => Err(err)
  }

  /**
   * The inner loop of `replace_player_words` for the compound `wc`: its one
   * slot placeholder names the tribute whose pronouns choose the word, and
   * every occurrence of the compound's text is replaced by that word.
   */
  method ReplaceCompound(text: string, wc: Compound, tributes: seq<Tribute>, event: string)
    returns (r: Result<string, EventError>)
    requires CompoundWellFormed(wc)
    ensures r == if wc.digit - 1 >= |tributes| then Err(MissingPlayerIdentifier(event, wc.digit - 1))
                 else Ok(ReplaceAll(text, wc.text, CompoundWord(wc, tributes[wc.digit - 1].pronouns)))
  {
    var words := wc.text;
    var inner := Tokens(words, SlotKeyword);
    CompoundHasOneSlot(wc);
    var out := text;
    for j := 0 to |inner|
      invariant j == 0 ==> words == wc.text && out == text
      invariant j == 1 ==>
        wc.digit - 1 < |tributes| &&
        out == ReplaceAll(text, wc.text, CompoundWord(wc, tributes[wc.digit - 1].pronouns))
    {
      var id := GetTributeNum(inner[j].text);
      TributeNumOfPlaceholder(inner[j], SlotKeyword);
      if id - 1 >= |tributes| {
        return Err(MissingPlayerIdentifier(event, id - 1));
      }
      var trib := tributes[id - 1];
      words := ReplaceAll(ReplaceAll(ReplaceAll(words, inner[j].text, ""), "(", ""), ")", "");
      CompoundStrip(wc);
      var split := Split(words, '/');
      var word := if trib.pronouns == They then split[1] else split[0];
      out := ReplaceAll(out, wc.text, word);
    }
    return Ok(out);
  }

  /**
   * `replace_player_words`: every compound is replaced by the word its
   * tribute's pronouns select. The slot inside a compound is found by the
   * slot pattern, which there matches exactly once.
   */
  method ReplacePlayerWords(res: EventResult) returns (r: Result<EventResult, EventError>)
    ensures r == CompoundPass(res)
  {
    var caps := Compounds(res.text);
    var text := res.text;
    for i := 0 to |caps|
      invariant CompoundSteps(res.text, caps, res.tributes, res.text)
             == CompoundSteps(text, caps[i..], res.tributes, res.text)
    {
      CompoundStepsHead(text, caps, i, res.tributes, res.text);
      var replaced := ReplaceCompound(text, caps[i], res.tributes, res.text);
      if replaced.Err? {
        assert CompoundSteps(res.text, caps, res.tributes, res.text) == Err(replaced.error);
        return Err(replaced.error);
      }
      text := replaced.value;
    }
    assert caps[|caps|..] == [];
    assert CompoundSteps(res.text, caps, res.tributes, res.text) == Ok(text);
    return Ok(res.(text := text));
  }

  // ---- names ----

  /** Every upper-cased slot key of `ds`, in that order, replaced by its tribute's name. */
  function NameSteps(text: string, m: map<nat, Tribute>, ds: seq<nat>): string
    requires forall i :: 0 <= i < |ds| ==> ds[i] in m && ds[i] < 10
  {
    if ds == [] then text
    else
      var d := ds[|ds| - 1];
      ReplaceAll(NameSteps(text, m, ds[..|ds| - 1]), SlotKey(d), m[d].name)
  }

  /** A name that can stand in for a slot key without forming another one: three characters or more, no parentheses. */
  predicate PlainName(name: string) {
    |name| >= 3 && NoParens(name)
  }

  /**
   * The name pass leaves none of the upper-cased keys it replaces: each
   * replacement removes its own key everywhere, and a plain name cannot
   * bring back a key replaced earlier.
   */
  lemma {:induction false} NameStepsClear(text: string, m: map<nat, Tribute>, ds: seq<nat>)
    requires forall i :: 0 <= i < |ds| ==> ds[i] in m && ds[i] < 10
    requires forall i :: 0 <= i < |ds| ==> PlainName(m[ds[i]].name)
    ensures forall i :: 0 <= i < |ds| ==> !Contains(NameSteps(text, m, ds), SlotKey(ds[i]))
  {
    if ds != [] {
      var init, d := ds[..|ds| - 1], ds[|ds| - 1];
      NameStepsClear(text, m, init);
      var before := NameSteps(text, m, init);
      forall i | 0 <= i < |ds| ensures !Contains(NameSteps(text, m, ds), SlotKey(ds[i])) {
        if i < |init| {
          assert init[i] == ds[i];
        }
        SlotKeyShape(ds[i]);
        ReplaceLeavesNone(before, SlotKey(d), m[d].name, SlotKey(ds[i]));
      }
    }
  }

  function PlayersPass(res: EventResult, m: map<nat, Tribute>): EventResult
    requires SlotMap(m)
  {
    res.(text := NameSteps(res.text, m, SlotOrder(m)))
  }

  /** After the name pass no bound slot's upper-cased key is left in the text, when every bound name is plain. */
  lemma PlayersPassClears(res: EventResult, m: map<nat, Tribute>)
    requires SlotMap(m)
    requires forall d :: d in m ==> PlainName(m[d].name)
    ensures forall d :: d in m ==> !Contains(PlayersPass(res, m).text, SlotKey(d))
  {
    var ds := SlotOrder(m);
    NameStepsClear(res.text, m, ds);
    forall d | d in m ensures !Contains(PlayersPass(res, m).text, SlotKey(d)) {
      var i :| 0 <= i < |ds| && ds[i] == d;
    }
  }

  /** `replace_players`: names in ascending slot order; it cannot fail. */
  method ReplacePlayers(res: EventResult, m: map<nat, Tribute>) returns (r: Result<EventResult, EventError>)
    requires SlotMap(m)
    ensures r == Ok(PlayersPass(res, m))
  {
    var ds := SlotOrder(m);
    var text := res.text;
    for i := 0 to |ds|
      invariant text == NameSteps(res.text, m, ds[..i])
    {
      assert ds[..i + 1][..i] == ds[..i];
      text := ReplaceAll(text, SlotKey(ds[i]), m[ds[i]].name);
    }
    assert ds[..|ds|] == ds;
    return Ok(res.(text := text));
  }

  // ---- resolution ----

  /** The rendering chain: four pronoun passes, the compound pass, the names. */
  function Render(res: EventResult, m: map<nat, Tribute>): Result<EventResult, EventError>
    requires SlotMap(m)
  {
    var r1 :- PronounPass(res, SubjectKeyword);
    var r2 :- PronounPass(r1, ObjectKeyword);
    var r3 :- PronounPass(r2, PossessiveKeyword);
    var r4 :- PronounPass(r3, ReflexiveKeyword);
    var r5 :- CompoundPass(r4);
    Ok(PlayersPass(r5, m))
  }

  /** What `get_result` gives for the binding `m`. */
  function Resolve(e: Event, m: map<nat, Tribute>): Result<EventResult, EventError>
    requires SlotMap(m)
  {
    var r := Assigned(e, m);
    if Asymmetric(r) then Err(MissingFieldsError(r.text)) else Render(r, m)
  }

  /** A slot not yet bound, among the required ones, leaves at least one more to bind. */
  lemma RoomForSlot(keys: set<nat>, d: nat, all: set<nat>)
    requires keys + {d} <= all && d !in keys
    ensures |keys| < |all|
  {
    SubsetSize(keys + {d}, all);
  }

  lemma BindBound(m: map<nat, Tribute>, d: nat, t: Tribute)
    requires d !in m && d < 10
    ensures multiset(Bound(m[d := t])) == multiset(Bound(m)) + multiset{t}
  {
    BindMultiset(m, d, t, 10);
  }

  /**
   * The pool accounting of slot binding: `left` is what remains of `pool`,
   * in order, at the positions `kept`, and together with the bound tributes
   * it makes up the pool exactly.
   */
  ghost predicate Accounted(pool: seq<Tribute>, left: seq<Tribute>, kept: seq<nat>, m: map<nat, Tribute>) {
    && SubsequenceBy(left, pool, kept)
    && multiset(left) + multiset(Bound(m)) == multiset(pool)
  }

  lemma {:induction false} NothingBound(k: nat)
    ensures BoundBelow(map[], k) == []
  {
    if k > 0 {
      NothingBound(k - 1);
    }
  }

  lemma AccountedAtStart(pool: seq<Tribute>)
    ensures Accounted(pool, pool, Positions(|pool|), map[])
  {
    SubsequenceOfItself(pool);
    NothingBound(10);
  }

  /** Drawing the tribute at `index` for the new slot `d` keeps the pool accounting. */
  lemma BindStep(pool: seq<Tribute>, left: seq<Tribute>, kept: seq<nat>, m: map<nat, Tribute>, d: nat, index: nat)
    requires Accounted(pool, left, kept, m) && index < |left| && d !in m && d < 10
    ensures Accounted(pool, RemoveAt(left, index), RemoveAt(kept, index), m[d := left[index]])
  {
    RemoveAtSubsequence(left, pool, kept, index);
    RemoveAtMultiset(left, index);
    BindBound(m, d, left[index]);
  }

  /**
   * The binding loop of `get_result`: every distinct slot, in text order of
   * first appearance, takes the tribute at index `coins(n) % |left|` of the
   * remaining pool (the random draw `gen_range`), which leaves the pool.
   * `next` is the next unused draw and `kept` the positions of `left` in `pool`.
   */
  method BindSlots(text: string, pool: seq<Tribute>, coins: nat -> nat, pos: nat)
    returns (collection: map<nat, Tribute>, left: seq<Tribute>, next: nat, ghost kept: seq<nat>)
    requires RequiredCount(text) <= |pool|
    ensures SlotMap(collection) && collection.Keys == SlotDigits(text)
    ensures |left| == |pool| - RequiredCount(text)
    ensures Accounted(pool, left, kept, collection)
    ensures next == pos + RequiredCount(text)
  {
    var caps := Tokens(text, SlotKeyword);
    SlotTokenDigits(text);
    assert caps[..|caps|] == caps;
    collection := map[];
    left, next, kept := pool, pos, Positions(|pool|);
    AccountedAtStart(pool);
    for i := 0 to |caps|
      invariant SlotMap(collection)
      invariant collection.Keys == DigitSet(caps[..i]) <= SlotDigits(text)
      invariant |left| == |pool| - |collection.Keys|
      invariant Accounted(pool, left, kept, collection)
      invariant next == pos + |collection.Keys|
    {
      DigitSetStep(caps, i);
      DigitSetPrefix(caps, i + 1);
      var d := caps[i].digit;
      if d !in collection {
        RoomForSlot(collection.Keys, d, SlotDigits(text));
        var index := coins(next) % |left|;
        BindLoopStep(pool, left, kept, collection, d, index);
        collection := collection[d := left[index]];
        left, kept := RemoveAt(left, index), RemoveAt(kept, index);
        next := next + 1;
      }
    }
  }

  /** Binding slot `d` to the tribute at `index` keeps the invariants of the binding loop. */
  lemma BindLoopStep(pool: seq<Tribute>, left: seq<Tribute>, kept: seq<nat>, m: map<nat, Tribute>, d: nat, index: nat)
    requires SlotMap(m) && 1 <= d <= 9 && d !in m
    requires |left| == |pool| - |m.Keys| && index < |left|
    requires Accounted(pool, left, kept, m)
    ensures SlotMap(m[d := left[index]]) && m[d := left[index]].Keys == m.Keys + {d}
    ensures |RemoveAt(left, index)| == |pool| - |m[d := left[index]].Keys|
    ensures |m[d := left[index]].Keys| == |m.Keys| + 1
    ensures Accounted(pool, RemoveAt(left, index), RemoveAt(kept, index), m[d := left[index]])
  {
    BindStep(pool, left, kept, m, d, index);
  }

  /** One more slot extends the role lists and the marked tributes by that slot's entries. */
  lemma RoleStep(e: Event, m: map<nat, Tribute>, ds: seq<nat>, i: nat)
    requires forall k :: 0 <= k < |ds| ==> ds[k] in m && ds[k] < 10
    requires i < |ds|
    ensures RoleIds(m, ds[..i + 1], e.killed)
         == RoleIds(m, ds[..i], e.killed) + (if SlotKey(ds[i]) in e.killed then [m[ds[i]].id] else [])
    ensures RoleIds(m, ds[..i + 1], e.killers)
         == RoleIds(m, ds[..i], e.killers) + (if SlotKey(ds[i]) in e.killers then [m[ds[i]].id] else [])
    ensures RoleTributes(e, m, ds[..i + 1]) == RoleTributes(e, m, ds[..i]) + [Mark(e, ds[i], m[ds[i]])]
  {
    assert ds[..i + 1][..i] == ds[..i];
  }

  /**
   * The role loop of `get_result`: in slot order, a tribute whose slot key
   * is a victim is killed and its id listed, a killer's id is listed, and
   * the tribute joins the result.
   */
  method AssignRoles(e: Event, collection: map<nat, Tribute>) returns (result: EventResult)
    requires SlotMap(collection)
    ensures result == Assigned(e, collection)
  {
    var ds := SlotOrder(collection);
    var killed, killers, tributes := RoleLoop(e, collection, ds);
    result := EventResult(e.text, killed, killers, tributes);
  }

  /** The role loop over the slots `ds`, in that order. */
  method RoleLoop(e: Event, collection: map<nat, Tribute>, ds: seq<nat>)
    returns (killed: seq<nat>, killers: seq<nat>, tributes: seq<Tribute>)
    requires forall k :: 0 <= k < |ds| ==> ds[k] in collection && ds[k] < 10
    ensures killed == RoleIds(collection, ds, e.killed)
    ensures killers == RoleIds(collection, ds, e.killers)
    ensures tributes == RoleTributes(e, collection, ds)
  {
    killed, killers, tributes := [], [], [];
    for i := 0 to |ds|
      invariant killed == RoleIds(collection, ds[..i], e.killed)
      invariant killers == RoleIds(collection, ds[..i], e.killers)
      invariant tributes == RoleTributes(e, collection, ds[..i])
    {
      RoleStep(e, collection, ds, i);
      var tribute := collection[ds[i]];
      var key := SlotKey(ds[i]);
      if key in e.killed {
        tribute := Kill(tribute);
        killed := killed + [tribute.id];
      }
      if key in e.killers {
        killers := killers + [tribute.id];
      }
      assert tribute == Mark(e, ds[i], collection[ds[i]]) && tribute.id == collection[ds[i]].id;
      tributes := tributes + [tribute];
    }
    assert ds[..|ds|] == ds;
  }

  /**
   * `get_result` on the pool `pool`: bind, assign roles, refuse an
   * asymmetric result, then render. `bound` is the binding the draws made.
   */
  method GetResult(e: Event, pool: seq<Tribute>, coins: nat -> nat, pos: nat)
    returns (r: Result<EventResult, EventError>, left: seq<Tribute>, next: nat,
             ghost bound: map<nat, Tribute>, ghost kept: seq<nat>)
    requires RequiredCount(e.text) <= |pool|
    ensures SlotMap(bound) && bound.Keys == SlotDigits(e.text)
    ensures |left| == |pool| - RequiredCount(e.text)
    ensures Accounted(pool, left, kept, bound)
    ensures next == pos + RequiredCount(e.text)
    ensures r == Resolve(e, bound)
  {
    var collection;
    collection, left, next, kept := BindSlots(e.text, pool, coins, pos);
    bound := collection;
    var result := AssignRoles(e, collection);
    if (|result.killers| > 0 && |result.killed| == 0) || (|result.killed| > 0 && |result.killers| == 0) {
      return Err(MissingFieldsError(result.text)), left, next, bound, kept;
    }
    var r1 :- ReplacePronouns(result, SubjectKeyword);
    var r2 :- ReplacePronouns(r1, ObjectKeyword);
    var r3 :- ReplacePronouns(r2, PossessiveKeyword);
    var r4 :- ReplacePronouns(r3, ReflexiveKeyword);
    var r5 :- ReplacePlayerWords(r4);
    r := ReplacePlayers(r5, collection);
  }

  // ---- what resolution promises ----

  /** The digits of the placeholders `toks`, in order. */
  function Digits(toks: seq<Placeholder>): (ds: seq<nat>)
    ensures |ds| == |toks|
  {
    if toks == [] then [] else [toks[0].digit] + Digits(toks[1..])
  }

  /** The slot placeholder "(Pd)" of each compound of `cs`, in order. */
  function Slots(cs: seq<Compound>): (ps: seq<Placeholder>)
    ensures |ps| == |cs|
    ensures forall i :: 0 <= i < |cs| ==> ps[i].digit == cs[i].digit
  {
    if cs == [] then [] else [Placeholder(cs[0].token, cs[0].digit)] + Slots(cs[1..])
  }

  /** The first position of `ds` holding a digit above `n`, if any. */
  function FirstAbove(ds: seq<nat>, n: nat): (r: Option<nat>)
    ensures r.Some? ==> r.value < |ds|
  {
    if ds == [] then None
    else if ds[0] > n then Some(0)
    else match FirstAbove(ds[1..], n)
      case Some(j) => Some(j + 1)
      case None => None
  }

  /** `FirstAbove` finds the least position above `n`, and finds none iff every digit is at most `n`. */
  lemma {:induction false} FirstAboveMeans(ds: seq<nat>, n: nat)
    ensures FirstAbove(ds, n).None? <==> forall i :: 0 <= i < |ds| ==> ds[i] <= n
    ensures FirstAbove(ds, n).Some? ==>
      ds[FirstAbove(ds, n).value] > n && forall i :: 0 <= i < FirstAbove(ds, n).value ==> ds[i] <= n
  {
    if ds != [] && ds[0] <= n {
      FirstAboveMeans(ds[1..], n);
      assert forall i :: 1 <= i < |ds| ==> ds[i] == ds[1..][i - 1];
    }
  }

  /**
   * A pronoun pass fails iff one of its placeholders names a position beyond
   * the bound tributes; the error reports the first such placeholder, as
   * index `digit - 1`, against the text the pass started from.
   */
  lemma {:induction false} PronounStepsOutcome(text: string, toks: seq<Placeholder>, kw: string, tributes: seq<Tribute>, event: string)
    requires forall t :: t in toks ==> WellFormed(t, kw)
    ensures var f := FirstAbove(Digits(toks), |tributes|);
      && (PronounSteps(text, toks, kw, tributes, event).Err? <==> f.Some?)
      && (f.Some? ==> PronounSteps(text, toks, kw, tributes, event).error
                       == MissingPlayerIdentifier(event, toks[f.value].digit - 1))
    decreases |toks|
  {
    if toks != [] {
      var t := toks[0];
      assert t in toks;
      if t.digit - 1 < |tributes| {
        assert forall u :: u in toks[1..] ==> u in toks;
        PronounStepsOutcome(Substitute(text, t, tributes[t.digit - 1].pronouns), toks[1..], kw, tributes, event);
        assert Digits(toks)[1..] == Digits(toks[1..]);
      }
    }
  }

  /** The compound pass fails exactly like a pronoun pass: at the first compound naming an unbound position. */
  lemma {:induction false} CompoundStepsOutcome(text: string, cs: seq<Compound>, tributes: seq<Tribute>, event: string)
    requires forall c :: c in cs ==> CompoundWellFormed(c)
    ensures var f := FirstAbove(Digits(Slots(cs)), |tributes|);
      && (CompoundSteps(text, cs, tributes, event).Err? <==> f.Some?)
      && (f.Some? ==> CompoundSteps(text, cs, tributes, event).error
                       == MissingPlayerIdentifier(event, cs[f.value].digit - 1))
    decreases |cs|
  {
    if cs != [] {
      var c := cs[0];
      assert c in cs;
      if c.digit - 1 < |tributes| {
        var next := ReplaceAll(text, c.text, CompoundWord(c, tributes[c.digit - 1].pronouns));
        assert forall u :: u in cs[1..] ==> u in cs;
        CompoundStepsOutcome(next, cs[1..], tributes, event);
        assert Slots(cs)[1..] == Slots(cs[1..]);
        assert Digits(Slots(cs))[1..] == Digits(Slots(cs[1..]));
      }
    }
  }

  /** The rendering passes only rewrite the text, and only ever fail with `MissingPlayerIdentifier`. */
  lemma RenderOutcome(res: EventResult, m: map<nat, Tribute>)
    requires SlotMap(m)
    ensures Render(res, m).Ok? ==>
      Render(res, m).value.killed == res.killed &&
      Render(res, m).value.killers == res.killers &&
      Render(res, m).value.tributes == res.tributes
    ensures Render(res, m).Err? ==> Render(res, m).error.MissingPlayerIdentifier?
  {
    PassOutcome(res, SubjectKeyword);
    if PronounPass(res, SubjectKeyword).Ok? {
      var r1 := PronounPass(res, SubjectKeyword).value;
      PassOutcome(r1, ObjectKeyword);
      if PronounPass(r1, ObjectKeyword).Ok? {
        var r2 := PronounPass(r1, ObjectKeyword).value;
        PassOutcome(r2, PossessiveKeyword);
        if PronounPass(r2, PossessiveKeyword).Ok? {
          var r3 := PronounPass(r2, PossessiveKeyword).value;
          PassOutcome(r3, ReflexiveKeyword);
          if PronounPass(r3, ReflexiveKeyword).Ok? {
            var r4 := PronounPass(r3, ReflexiveKeyword).value;
            CompoundStepsOutcome(r4.text, Compounds(r4.text), r4.tributes, r4.text);
          }
        }
      }
    }
  }

  /** One pronoun pass keeps the roles and fails only with `MissingPlayerIdentifier`. */
  lemma PassOutcome(res: EventResult, kw: string)
    ensures PronounPass(res, kw).Ok? ==>
      PronounPass(res, kw).value == res.(text := PronounPass(res, kw).value.text)
    ensures PronounPass(res, kw).Err? ==> PronounPass(res, kw).error.MissingPlayerIdentifier?
  {
    TokensWellFormed(res.text, kw);
    PronounStepsOutcome(res.text, Tokens(res.text, kw), kw, res.tributes, res.text);
  }

  /**
   * `get_result` refuses exactly the asymmetric role assignments: it fails
   * with `MissingFieldsError` iff exactly one of the victim and killer lists
   * is empty, and then reports the template's text.
   */
  lemma ResolveMissingFields(e: Event, m: map<nat, Tribute>)
    requires SlotMap(m)
    ensures (Resolve(e, m).Err? && Resolve(e, m).error.MissingFieldsError?) <==> Asymmetric(Assigned(e, m))
    ensures Asymmetric(Assigned(e, m)) ==> Resolve(e, m) == Err(MissingFieldsError(e.text))
  {
    RenderOutcome(Assigned(e, m), m);
  }

  /** A successful resolution keeps the assigned roles and is never asymmetric. */
  lemma ResolveKeepsRoles(e: Event, m: map<nat, Tribute>)
    requires SlotMap(m)
    ensures Resolve(e, m).Ok? ==>
      Resolve(e, m).value.killed == Assigned(e, m).killed &&
      Resolve(e, m).value.killers == Assigned(e, m).killers &&
      Resolve(e, m).value.tributes == Assigned(e, m).tributes &&
      !Asymmetric(Resolve(e, m).value)
  {
    RenderOutcome(Assigned(e, m), m);
  }

  /**
   * A resolved result names no more victims (killers) than the template
   * lists victim (killer) keys: each bound slot contributes at most one id.
   */
  lemma ResolvedAtMost(e: Event, m: map<nat, Tribute>)
    requires SlotMap(m)
    ensures Resolve(e, m).Ok? ==>
      |Resolve(e, m).value.killed| <= |e.killed| && |Resolve(e, m).value.killers| <= |e.killers|
  {
    ResolveKeepsRoles(e, m);
    RoleIdsAtMost(m, SlotOrder(m), e.killed);
    RoleIdsAtMost(m, SlotOrder(m), e.killers);
  }

  /**
   * The assigned roles: the result lists one copy of each bound tribute, in
   * ascending slot order, killed iff its slot key is a victim; an id is a
   * victim (killer) iff some bound slot whose key is in `killed` (`killers`)
   * holds a tribute with that id.
   */
  lemma AssignedRoles(e: Event, m: map<nat, Tribute>)
    requires SlotMap(m)
    ensures |Assigned(e, m).tributes| == |m|
    ensures forall i :: 0 <= i < |SlotOrder(m)| ==>
      var d := SlotOrder(m)[i];
      var t := Assigned(e, m).tributes[i];
      t.id == m[d].id && t.name == m[d].name && t.kills == m[d].kills && t.pronouns == m[d].pronouns &&
      (t.isAlive <==> m[d].isAlive && SlotKey(d) !in e.killed)
    ensures forall id :: id in Assigned(e, m).killed <==>
      exists d :: d in m && SlotKey(d) in e.killed && m[d].id == id
    ensures forall id :: id in Assigned(e, m).killers <==>
      exists d :: d in m && SlotKey(d) in e.killers && m[d].id == id
  {
    BoundCount(m);
    BoundSlots(m);
    RoleMembers(m, e.killed);
    RoleMembers(m, e.killers);
  }

  /** An id is listed for `role` iff some bound slot whose key is in `role` holds a tribute with that id. */
  lemma RoleMembers(m: map<nat, Tribute>, role: seq<string>)
    requires SlotMap(m)
    ensures forall id :: id in RoleIds(m, SlotOrder(m), role) <==>
      exists d :: d in m && SlotKey(d) in role && m[d].id == id
  {
    var ds := SlotOrder(m);
    RoleIdsMembers(m, ds, role);
    forall id | exists d :: d in m && SlotKey(d) in role && m[d].id == id
      ensures id in RoleIds(m, ds, role)
    {
      var d :| d in m && SlotKey(d) in role && m[d].id == id;
      var i :| 0 <= i < |ds| && ds[i] == d;
    }
  }

  /** With the slots 1..n bound, the slots below k are 1, ..., k - 1. */
  lemma {:induction false} ContiguousBelow(m: map<nat, Tribute>, n: nat, k: nat)
    requires forall d :: d in m <==> 1 <= d <= n
    requires 1 <= k <= n + 1
    ensures |SlotsBelow(m, k)| == k - 1
    ensures forall i :: 0 <= i < k - 1 ==> SlotsBelow(m, k)[i] == i + 1
  {
    if k == 1 {
      assert 0 !in m;
      assert SlotsBelow(m, 1) == SlotsBelow(m, 0);
    } else {
      ContiguousBelow(m, n, k - 1);
      assert k - 1 in m;
      assert SlotsBelow(m, k) == SlotsBelow(m, k - 1) + [k - 1];
    }
  }

  /**
   * When the slots used are exactly 1..n, position k - 1 of the result
   * holds the tribute bound to slot k, so a placeholder with digit k speaks
   * about the tribute of "(Pk)".
   */
  lemma ContiguousSlots(e: Event, m: map<nat, Tribute>, n: nat)
    requires SlotMap(m)
    requires forall d :: d in m <==> 1 <= d <= n
    ensures |Assigned(e, m).tributes| == n
    ensures forall k :: 1 <= k <= n ==> Assigned(e, m).tributes[k - 1] == Mark(e, k, m[k])
  {
    ContiguousOrder(m, n);
    AssignedTributesAt(e, m);
  }

  /** Position i of the assigned tributes is the marked tribute of the i-th slot in slot order. */
  lemma AssignedTributesAt(e: Event, m: map<nat, Tribute>)
    requires SlotMap(m)
    ensures |Assigned(e, m).tributes| == |SlotOrder(m)|
    ensures forall i :: 0 <= i < |SlotOrder(m)| ==>
      Assigned(e, m).tributes[i] == Mark(e, SlotOrder(m)[i], m[SlotOrder(m)[i]])
  {
  }

  /** With the slots 1..n bound, the sorted slot order is 1, 2, ..., n. */
  lemma ContiguousOrder(m: map<nat, Tribute>, n: nat)
    requires SlotMap(m)
    requires forall d :: d in m <==> 1 <= d <= n
    ensures |SlotOrder(m)| == n
    ensures forall i :: 0 <= i < n ==> SlotOrder(m)[i] == i + 1
  {
    assert n <= 9 by {
      assert 10 in m <==> 1 <= 10 <= n;
      assert 10 !in m;
    }
    ContiguousBelow(m, n, n + 1);
    SlotsStable(m, n + 1, 10);
  }

  lemma {:induction false} SlotsStable(m: map<nat, Tribute>, lo: nat, k: nat)
    requires lo <= k
    requires forall d :: lo <= d < k ==> d !in m
    ensures SlotsBelow(m, k) == SlotsBelow(m, lo)
    decreases k - lo
  {
    if k > lo {
      SlotsStable(m, lo, k - 1);
      assert k - 1 !in m;
    }
  }

  /** A text without pronoun placeholders or compounds goes straight to the name pass. */
  lemma OnlyNames(res: EventResult, m: map<nat, Tribute>)
    requires SlotMap(m)
    requires Tokens(res.text, SubjectKeyword) == [] && Tokens(res.text, ObjectKeyword) == []
    requires Tokens(res.text, PossessiveKeyword) == [] && Tokens(res.text, ReflexiveKeyword) == []
    requires Compounds(res.text) == []
    ensures Render(res, m) == Ok(PlayersPass(res, m))
  {
    assert PronounPass(res, SubjectKeyword) == Ok(res);
    assert PronounPass(res, ObjectKeyword) == Ok(res);
    assert PronounPass(res, PossessiveKeyword) == Ok(res);
    assert PronounPass(res, ReflexiveKeyword) == Ok(res);
    assert CompoundPass(res) == Ok(res);
  }

  /** A template "(P1)" with no roles, bound to `t`: one untouched copy of `t`, and no role lists. */
  lemma SingleAssigned(e: Event, t: Tribute)
    requires e.killed == [] && e.killers == []
    ensures Assigned(e, map[1 := t]) == EventResult(e.text, [], [], [t])
    ensures PlayersPass(Assigned(e, map[1 := t]), map[1 := t]).text == ReplaceAll(e.text, "(P1)", t.name)
  {
    var m := map[1 := t];
    ContiguousOrder(m, 1);
    var ds := SlotOrder(m);
    assert ds == [1];
    assert ds[..0] == [];
    assert SlotKey(1) == "(P1)";
    assert RoleIds(m, ds, e.killed) == [];
    assert RoleIds(m, ds, e.killers) == [];
    assert RoleTributes(e, m, ds) == [t];
    assert NameSteps(e.text, m, ds) == ReplaceAll(e.text, "(P1)", t.name);
  }

  /** An upper-case "(P1)" is replaced by the name of the tribute bound to it. */
  lemma UpperSlotNamed(e: Event, t: Tribute)
    requires e.text == "(P1)" && e.killed == [] && e.killers == []
    ensures SlotDigits(e.text) == {1}
    ensures Resolve(e, map[1 := t]) == Ok(EventResult(t.name, [], [], [t]))
  {
    var m := map[1 := t];
    SingleSlot(e.text, 'P');
    SingleAssigned(e, t);
    NoOtherPlaceholders(e.text);
    OnlyNames(Assigned(e, m), m);
    assert !Asymmetric(Assigned(e, m));
    assert ReplaceAll("(P1)", "(P1)", t.name) == t.name by {
      assert "(P1)" == "(P1)" + [];
      ReplaceAtFront("(P1)", [], t.name);
      assert t.name + [] == t.name;
    }
  }

  /**
   * A lower-case "(p1)" binds a tribute like "(P1)" does, but the names are
   * filled in by the upper-cased key only, so the text keeps "(p1)".
   */
  lemma LowerSlotNotNamed(e: Event, t: Tribute)
    requires e.text == "(p1)" && e.killed == [] && e.killers == []
    ensures SlotDigits(e.text) == {1}
    ensures Resolve(e, map[1 := t]) == Ok(EventResult("(p1)", [], [], [t]))
  {
    var m := map[1 := t];
    SingleSlot(e.text, 'p');
    SingleAssigned(e, t);
    NoOtherPlaceholders(e.text);
    OnlyNames(Assigned(e, m), m);
    assert !Contains("(p1)", "(P1)") by {
      forall i: nat | i <= 4 ensures !OccursAt("(p1)", "(P1)", i) {
        if i == 0 { assert "(p1)"[0..4][1] != "(P1)"[1]; }
      }
    }
    ReplaceAbsent("(p1)", "(P1)", t.name);
  }

  /** "(P1)" and "(p1)" are one slot placeholder with digit 1. */
  lemma SingleSlot(s: string, c: char)
    requires c == 'p' || c == 'P'
    requires s == "(" + [c] + "1)"
    ensures Tokens(s, SlotKeyword) == [Placeholder(s, 1)]
    ensures SlotDigits(s) == {1}
  {
    assert LowerStr(s[1..2]) == [ToLower(s[1])];
    assert TokenAt(s, 0, SlotKeyword);
    assert s[0..4] == s;
    assert ScanFrom(s, SlotKeyword, 4) == [];
    assert DigitSet([Placeholder(s, 1)]) == DigitSet([]) + {1};
  }

  /** A four-character slot placeholder holds no pronoun placeholder and no compound. */
  lemma NoOtherPlaceholders(s: string)
    requires |s| == 4
    ensures Tokens(s, SubjectKeyword) == [] && Tokens(s, ObjectKeyword) == []
    ensures Tokens(s, PossessiveKeyword) == [] && Tokens(s, ReflexiveKeyword) == []
    ensures Compounds(s) == []
  {
    assert CompoundAt(s, 0).None? && CompoundAt(s, 1).None? && CompoundAt(s, 2).None? && CompoundAt(s, 3).None?;
    assert CompoundsFrom(s, 3) == CompoundsFrom(s, 4);
    assert CompoundsFrom(s, 2) == CompoundsFrom(s, 3);
    assert CompoundsFrom(s, 1) == CompoundsFrom(s, 2);
  }
}
