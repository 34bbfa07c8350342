/** The element resolver: VirtualNavigator.TryClickButton and the list GoBack walks.
    The host's live buttons are given as a sequence in enumeration order; a click is
    recorded as the position of the clicked element in that sequence. */
module Resolver {

  datatype Option<T> = None | Some(value: T)

  /** A host button as enumerated: its game-object name and whether it is active in
      the hierarchy. */
  datatype Element = Element(name: string, active: bool)

  predicate StartsWith(s: string, p: string)
  {
    |p| <= |s| && s[..|p|] == p
  }

  /** Ordinal substring test, as String.Contains: the empty string is contained in
      every string. */
  predicate Contains(s: string, p: string)
    decreases |s|
  {
    StartsWith(s, p) || (|s| > 0 && Contains(s[1..], p))
  }

  /** `p` occurs in `s` starting at position `i`. */
  ghost predicate OccursAt(s: string, p: string, i: int)
  {
    0 <= i && i + |p| <= |s| && s[i..i + |p|] == p
  }

  /** Contains agrees with the positional definition of a substring. */
  lemma {:induction false} ContainsIff(s: string, p: string)
    ensures Contains(s, p) <==> exists i :: OccursAt(s, p, i)
    decreases |s|
  {
    if Contains(s, p) {
      if StartsWith(s, p) {
        assert OccursAt(s, p, 0);
      } else {
        ContainsIff(s[1..], p);
        var j :| OccursAt(s[1..], p, j);
        assert s[1..][j..j + |p|] == s[j + 1..j + 1 + |p|];
        assert OccursAt(s, p, j + 1);
      }
    }
    if exists i :: OccursAt(s, p, i) {
      var i :| OccursAt(s, p, i);
      if i == 0 {
        assert StartsWith(s, p);
      } else {
        assert s[1..][i - 1..i - 1 + |p|] == s[i..i + |p|];
        assert OccursAt(s[1..], p, i - 1);
        ContainsIff(s[1..], p);
      }
    }
  }

  /** Containment is transitive. */
  lemma ContainsTransitive(s: string, t: string, p: string)
    requires Contains(s, t) && Contains(t, p)
    ensures Contains(s, p)
  {
    ContainsIff(s, t);
    ContainsIff(t, p);
    var i :| OccursAt(s, t, i);
    var j :| OccursAt(t, p, j);
    forall k | 0 <= k < |p|
      ensures s[i + j..i + j + |p|][k] == p[k]
    {
      assert p[k] == t[j + k] == s[i..i + |t|][j + k];
    }
    assert OccursAt(s, p, i + j);
    ContainsIff(s, p);
  }

  /** Every character of a contained string occurs in the containing one. */
  lemma ContainedChars(s: string, p: string)
    ensures Contains(s, p) ==> forall k :: 0 <= k < |p| ==> p[k] in s
  {
    if Contains(s, p) {
      ContainsIff(s, p);
      var i :| OccursAt(s, p, i);
      forall k | 0 <= k < |p|
        ensures p[k] in s
      {
        assert s[i..i + |p|][k] == s[i + k];
      }
    }
  }

  /** A string holding a character the other lacks is not contained in it. */
  lemma NotContainedByMissingChar(s: string, p: string, c: char)
    requires c in p && c !in s
    ensures !Contains(s, p)
  {
    ContainedChars(s, p);
  }

  /** The three spellings TryClickButton tries for a logical name, in its order. */
  function Variants(x: string): seq<string>
  {
    [x, "Button_" + x, x + "Button"]
  }

  /** The element name contains one of the variants of `x`. */
  predicate MatchesName(name: string, x: string)
  {
    exists k :: 0 <= k < |Variants(x)| && Contains(name, Variants(x)[k])
  }

  /** The element is one TryClickButton would click for `x`. */
  predicate Hit(e: Element, x: string)
  {
    e.active && MatchesName(e.name, x)
  }

  /** Position `i` holds the first element of `host` that TryClickButton would click. */
  ghost predicate IsFirstHit(host: seq<Element>, x: string, i: nat)
  {
    i < |host| && Hit(host[i], x) && forall j :: 0 <= j < i ==> !Hit(host[j], x)
  }

  /** Since both longer variants contain `x` itself, an element name matches iff it
      contains `x`. */
  lemma MatchesNameIff(name: string, x: string)
    ensures MatchesName(name, x) <==> Contains(name, x)
  {
    var b := "Button_" + x;
    var a := x + "Button";
    assert b[7..7 + |x|] == x;
    assert OccursAt(b, x, 7);
    ContainsIff(b, x);
    assert a[..|x|] == x;
    assert StartsWith(a, x);
    if Contains(name, b) {
      ContainsTransitive(name, b, x);
    }
    if Contains(name, a) {
      ContainsTransitive(name, a, x);
    }
    assert Variants(x)[0] == x;
  }

  /** The element TryClickButton clicks for `x`, if any: the first active element, in
      enumeration order, whose name contains a variant of `x`. */
  function Resolve(host: seq<Element>, x: string): (r: Option<nat>)
    ensures r.Some? ==> IsFirstHit(host, x, r.value)
    ensures r.None? ==> forall i :: 0 <= i < |host| ==> !Hit(host[i], x)
    decreases |host|
  {
    if |host| == 0 then None
    else if Hit(host[0], x) then Some(0)
    else match Resolve(host[1..], x)
      case None => None
      case Some(i) => Some(i + 1)
  }

  /** Resolution succeeds exactly when some active element's name contains `x`. */
  lemma ResolveIff(host: seq<Element>, x: string)
    ensures Resolve(host, x).Some? <==>
            exists i :: 0 <= i < |host| && host[i].active && Contains(host[i].name, x)
  {
    if Resolve(host, x).Some? {
      var i := Resolve(host, x).value;
      MatchesNameIff(host[i].name, x);
    } else {
      forall i | 0 <= i < |host| && host[i].active
        ensures !Contains(host[i].name, x)
      {
        MatchesNameIff(host[i].name, x);
      }
    }
  }

  /** With a single element on screen, resolution is a plain containment test. */
  lemma ResolveSingle(e: Element, x: string)
    ensures Resolve([e], x) == if e.active && Contains(e.name, x) then Some(0) else None
  {
    MatchesNameIff(e.name, x);
    assert [e][1..] == [];
  }

  /** A single element whose name lacks a character of `x` is not clicked for `x`. */
  lemma MissByChar(e: Element, x: string, c: char)
    requires c in x && c !in e.name
    ensures Resolve([e], x).None?
  {
    NotContainedByMissingChar(e.name, x, c);
    ResolveSingle(e, x);
  }

  /** A single active element whose name starts with `x` is clicked for `x`. */
  lemma HitByPrefix(e: Element, x: string)
    requires e.active && StartsWith(e.name, x)
    ensures Resolve([e], x) == Some(0)
  {
    ResolveSingle(e, x);
  }

  /** With two elements on screen of which only the second qualifies, the second is
      clicked. */
  lemma ResolvePair(a: Element, b: Element, x: string)
    requires !Hit(a, x) && Hit(b, x)
    ensures Resolve([a, b], x) == Some(1)
  {
    assert [a, b][1..] == [b];
  }

  /** The search loop of TryClickButton: elements in enumeration order, inactive ones
      skipped, the variants of `x` tried in turn, the first match wins. */
  method FindButton(host: seq<Element>, x: string) returns (r: Option<nat>)
    ensures r == Resolve(host, x)
  {
    var names := Variants(x);
    var i := 0;
    while i < |host|
      invariant 0 <= i <= |host|
      invariant forall j :: 0 <= j < i ==> !Hit(host[j], x)
    {
      var e := host[i];
      if e.active {
        var k := 0;
        while k < |names|
          invariant 0 <= k <= |names|
          invariant forall m :: 0 <= m < k ==> !Contains(e.name, names[m])
        {
          if Contains(e.name, names[k]) {
            assert Hit(host[i], x);
            return Some(i);
          }
          k := k + 1;
        }
      }
      i := i + 1;
    }
    return None;
  }

  /** The names GoBack tries, highest priority first. */
  const BACK_BUTTONS: seq<string> := [
    "CloseButton", "Close", "BackButton", "Back",
    "CancelButton", "Cancel", "DoneButton", "Done",
    "Button_Close", "Button_Back", "Button_Cancel"
  ]

  /** The first of `names` that resolves, as (its position in `names`, the element it
      resolves to), or None when none of them does. */
  function FirstResolving(host: seq<Element>, names: seq<string>): (r: Option<(nat, nat)>)
    ensures r.Some? ==>
              && r.value.0 < |names|
              && Resolve(host, names[r.value.0]) == Some(r.value.1)
              && forall k :: 0 <= k < r.value.0 ==> Resolve(host, names[k]).None?
    ensures r.None? ==> forall k :: 0 <= k < |names| ==> Resolve(host, names[k]).None?
    decreases |names|
  {
    if |names| == 0 then None
    else match Resolve(host, names[0])
      case Some(i) => Some((0, i))
      case None =>
        match FirstResolving(host, names[1..])
        case None => None
        case Some(p) => Some((p.0 + 1, p.1))
  }

  /** The converse of FirstResolving's contract: a name that resolves, with no name
      before it resolving, is the one FirstResolving chooses. */
  lemma FirstResolvingAt(host: seq<Element>, names: seq<string>, k: nat)
    requires k < |names| && Resolve(host, names[k]).Some?
    requires forall j :: 0 <= j < k ==> Resolve(host, names[j]).None?
    ensures FirstResolving(host, names) == Some((k, Resolve(host, names[k]).value))
  {
  }

  /** When no name resolves, FirstResolving chooses none. */
  lemma FirstResolvingNone(host: seq<Element>, names: seq<string>)
    requires forall j :: 0 <= j < |names| ==> Resolve(host, names[j]).None?
    ensures FirstResolving(host, names).None?
  {
  }
}
