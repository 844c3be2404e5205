/** A district: a named group owning a sequence of tributes. */
module District {
  import opened Text
  import opened Tribute

  datatype District = District(fileName: string, name: string, tributes: seq<Tribute>)

  /** The alive tributes of `ts`, in their original order. */
  function AliveOnly(ts: seq<Tribute>): seq<Tribute>
  {
    if ts == [] then []
    else (if ts[0].isAlive then [ts[0]] else []) + AliveOnly(ts[1..])
  }

  /** Number of alive tributes in `ts`. */
  function CountAlive(ts: seq<Tribute>): nat
  {
    if ts == [] then 0 else (if ts[0].isAlive then 1 else 0) + CountAlive(ts[1..])
  }

  predicate SomeAlive(ts: seq<Tribute>) {
    exists i :: 0 <= i < |ts| && ts[i].isAlive
  }

  lemma {:induction false} AliveOnlyAppend(a: seq<Tribute>, b: seq<Tribute>)
    ensures AliveOnly(a + b) == AliveOnly(a) + AliveOnly(b)
    ensures CountAlive(a + b) == CountAlive(a) + CountAlive(b)
  {
    if a == [] {
      assert a + b == b;
    } else {
      var ab := a + b;
      assert ab[0] == a[0] && ab[1..] == a[1..] + b;
      AliveOnlyAppend(a[1..], b);
      assert AliveOnly(ab) == (if a[0].isAlive then [a[0]] else []) + AliveOnly(ab[1..]);
    }
  }

  /**
   * The filter keeps exactly the alive tributes: a tribute is in the result
   * iff it is in `ts` and alive, and there are `CountAlive(ts)` of them.
   */
  lemma {:induction false} AliveOnlyExactly(ts: seq<Tribute>)
    ensures |AliveOnly(ts)| == CountAlive(ts)
    ensures forall t :: t in AliveOnly(ts) <==> t in ts && t.isAlive
  {
    if ts != [] {
      AliveOnlyExactly(ts[1..]);
      assert forall t :: t in ts <==> t == ts[0] || t in ts[1..];
    }
  }

  /** No alive tributes, no survivors: the three views agree. */
  lemma {:induction false} AliveOnlyEmptyIff(ts: seq<Tribute>)
    ensures AliveOnly(ts) == [] <==> !SomeAlive(ts)
    ensures CountAlive(ts) == 0 <==> !SomeAlive(ts)
  {
    AliveOnlyExactly(ts);
    if ts != [] {
      AliveOnlyEmptyIff(ts[1..]);
      if SomeAlive(ts[1..]) {
        var i :| 0 <= i < |ts[1..]| && ts[1..][i].isAlive;
        assert ts[i + 1].isAlive;
      }
      if SomeAlive(ts) && !ts[0].isAlive {
        var i :| 0 <= i < |ts| && ts[i].isAlive;
        assert ts[1..][i - 1].isAlive;
      }
    }
  }

  /** `has_living_tributes`: counts the alive tributes and tests for a positive count. */
  method HasLivingTributes(d: District) returns (b: bool)
    ensures b <==> SomeAlive(d.tributes)
  {
    var living := 0;
    var i := 0;
    while i < |d.tributes|
      invariant 0 <= i <= |d.tributes|
      invariant living == CountAlive(d.tributes[..i])
    {
      if d.tributes[i].isAlive {
        living := living + 1;
      }
      AliveOnlyAppend(d.tributes[..i], [d.tributes[i]]);
      assert d.tributes[..i + 1] == d.tributes[..i] + [d.tributes[i]];
      i := i + 1;
    }
    assert d.tributes[..i] == d.tributes;
    AliveOnlyEmptyIff(d.tributes);
    b := living > 0;
  }

  /** `get_living`: copies of the alive tributes, in district order. */
  method GetLiving(d: District) returns (living: seq<Tribute>)
    ensures living == AliveOnly(d.tributes)
  {
    living := [];
    var i := 0;
    while i < |d.tributes|
      invariant 0 <= i <= |d.tributes|
      invariant living == AliveOnly(d.tributes[..i])
    {
      if d.tributes[i].isAlive {
        living := living + [d.tributes[i]];
      }
      AliveOnlyAppend(d.tributes[..i], [d.tributes[i]]);
      assert d.tributes[..i + 1] == d.tributes[..i] + [d.tributes[i]];
      i := i + 1;
    }
    assert d.tributes[..i] == d.tributes;
    if |living| < 1 {
      return [];
    }
  }

  /** `set_path`: records the file name with every ".toml" removed. */
  function SetPath(d: District, fileName: string): (r: District)
    ensures r.fileName == ReplaceAll(fileName, ".toml", "")
    ensures r.name == d.name && r.tributes == d.tributes
  {
    d.(fileName := ReplaceAll(fileName, ".toml", ""))
  }

  /** A plain "name.toml" file name is stored as "name". */
  lemma {:induction false} SetPathStripsExtension(d: District, stem: string)
    requires forall i :: 0 <= i < |stem| ==> stem[i] != '.'
    ensures SetPath(d, stem + ".toml").fileName == stem
    decreases |stem|
  {
    if stem == [] {
      assert stem + ".toml" == ".toml" + [];
      ReplaceAtFront(".toml", [], "");
    } else {
      var s := stem + ".toml";
      assert s[..5] != ".toml" by { assert s[0] == stem[0] != '.'; }
      assert s[1..] == stem[1..] + ".toml";
      SetPathStripsExtension(d, stem[1..]);
    }
  }
}
