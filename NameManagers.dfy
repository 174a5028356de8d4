/**
 * `NameManager` and `_LocalScope` (pypy/translator/gensupp.py): the tables
 * a source generator uses to keep all global and local C names of one
 * program apart. Global names are counted per base name; local scopes hand
 * out names per nesting depth, and scopes at the same depth share them.
 * A call that raises `NameError` or `IndexError` in the source returns
 * `false` or `None` here.
 */
module NameManagers {
  import opened Optional
  import opened Text
  import opened CNames
  import opened Sets

  /** `d.get(k, 0)`. */
  function Get(m: map<string, nat>, k: string): (v: nat)
    ensures v > 0 ==> k in m
    ensures k in m ==> v == m[k]
  {
    if k in m then m[k] else 0
  }

  // ---------------------------------------------------------------------
  // `make_reserved_names`
  // ---------------------------------------------------------------------

  datatype Reserved = Reserved(ok: bool, seen: map<string, nat>)

  /**
   * Reserving `words` one after the other: each gets count 1, and the first
   * word that is already known stops the loop with `NameError`, keeping
   * the words entered before it.
   */
  function Reserve(seen: map<string, nat>, words: seq<string>): (r: Reserved)
    ensures forall k :: k in seen ==> k in r.seen && r.seen[k] == seen[k]
    decreases |words|
  {
    if words == [] then Reserved(true, seen)
    else if words[0] in seen then Reserved(false, seen)
    else Reserve(seen[words[0] := 1], words[1..])
  }

  predicate Distinct(words: seq<string>) {
    forall i, j :: 0 <= i < j < |words| ==> words[i] != words[j]
  }

  /** Reservation succeeds exactly when no word is known already and no word is given twice. */
  lemma {:induction false} ReserveOk(seen: map<string, nat>, words: seq<string>)
    ensures Reserve(seen, words).ok <==>
              (forall k :: 0 <= k < |words| ==> words[k] !in seen) && Distinct(words)
    decreases |words|
  {
    if words != [] && words[0] !in seen {
      var rest := words[1..];
      ReserveOk(seen[words[0] := 1], rest);
      if Reserve(seen, words).ok {
        forall k | 0 <= k < |words|
          ensures words[k] !in seen
        {
          if k > 0 {
            assert rest[k - 1] == words[k];
          }
        }
        forall i, j | 0 <= i < j < |words|
          ensures words[i] != words[j]
        {
          assert words[j] == rest[j - 1];
          if i > 0 {
            assert words[i] == rest[i - 1];
          }
        }
      } else if forall k :: 0 <= k < |words| ==> words[k] !in seen {
        if forall k :: 0 <= k < |rest| ==> rest[k] !in seen[words[0] := 1] {
          var i, j :| 0 <= i < j < |rest| && rest[i] == rest[j];
          assert words[i + 1] == words[j + 1];
        } else {
          var k :| 0 <= k < |rest| && rest[k] in seen[words[0] := 1];
          assert words[k + 1] == words[0];
        }
      }
    }
  }

  /**
   * Known names keep their counts and nothing besides the words is added;
   * on success every word is known with count 1.
   */
  lemma {:induction false} ReserveEntries(seen: map<string, nat>, words: seq<string>)
    ensures forall k :: k in seen ==>
              k in Reserve(seen, words).seen && Reserve(seen, words).seen[k] == seen[k]
    ensures Reserve(seen, words).seen.Keys <= seen.Keys + set w | w in words
    ensures Reserve(seen, words).ok ==>
              forall w :: w in words ==> w in Reserve(seen, words).seen && Reserve(seen, words).seen[w] == 1
    decreases |words|
  {
    if words != [] && words[0] !in seen {
      var rest := words[1..];
      ReserveEntries(seen[words[0] := 1], rest);
      assert words == [words[0]] + rest;
      assert (set w | w in words) == {words[0]} + set w | w in rest;
    }
  }

  /** Reserving, even when it stops with `NameError`, leaves every known name counted. */
  lemma {:induction false} ReserveCounted(seen: map<string, nat>, words: seq<string>)
    requires Counted(seen)
    ensures Counted(Reserve(seen, words).seen)
    decreases |words|
  {
    if words != [] && words[0] !in seen {
      ReserveCounted(seen[words[0] := 1], words[1..]);
    }
  }

  // ---------------------------------------------------------------------
  // `NameManager.uniquename`
  // ---------------------------------------------------------------------

  /** A name handed out together with the counts after the call. */
  datatype Named = Named(name: string, seen: map<string, nat>)

  /** Every known name has been counted at least once. */
  predicate Counted(seen: map<string, nat>) {
    forall k :: k in seen ==> seen[k] >= 1
  }

  /** The known names at least `len` characters long. */
  function LongKeys(seen: map<string, nat>, len: nat): set<string> {
    set k | k in seen && |k| >= len
  }

  /** Each retry asks for a longer name after registering the shorter one. */
  lemma LongKeysShrink(seen: map<string, nat>, b: string, count: nat, longer: string)
    requires b in seen && |longer| > |b|
    ensures |LongKeys(seen[b := count], |longer|)| < |LongKeys(seen, |b|)|
  {
    var after := LongKeys(seen[b := count], |longer|);
    var before := LongKeys(seen, |b|);
    assert after <= before - {b};
    SubsetCard(after, before - {b});
  }

  /** The two base names that get a number even on first use. */
  predicate IsNumbered(b: string) {
    b == "v" || b == "w_"
  }

  /**
   * `uniquename(basename)`: translate the name, bump its count `n`; the
   * first request returns the name itself (`v0`/`w_0` for the two
   * numbered prefixes `v` and `w_`); later requests retry with the count
   * appended (`v<n>`, `w_<n>`, `<name>_<n>`).
   */
  function UniqueNameF(seen: map<string, nat>, basename: string): (r: Named)
    ensures seen.Keys <= r.seen.Keys && Translate(basename) in r.seen
    decreases |LongKeys(seen, |basename|)|
  {
    var b := Translate(basename);
    var n := Get(seen, b);
    var seen' := seen[b := n + 1];
    if IsNumbered(b) then
      if n == 0 then Named(b + Decimal(n), seen')
      else
        LongKeysShrink(seen, b, n + 1, b + Decimal(n));
        UniqueNameF(seen', b + Decimal(n))
    else if n == 0 then Named(b, seen')
    else
      LongKeysShrink(seen, b, n + 1, b + "_" + Decimal(n));
      UniqueNameF(seen', b + "_" + Decimal(n))
  }

  lemma DigitsAreIdentifier(d: string)
    requires IsDigits(d)
    ensures IsIdentifier(d)
  {
  }

  /** A retry name is already translated and is not one of the numbered prefixes. */
  lemma RetryName(b: string, sep: string, n: nat)
    requires IsIdentifier(b) && (sep == "" || sep == "_")
    ensures Translate(b + sep + Decimal(n)) == b + sep + Decimal(n)
    ensures !IsNumbered(b + sep + Decimal(n))
  {
    var d := Decimal(n);
    var r := b + sep + d;
    DigitsAreIdentifier(d);
    assert IsIdentifier(r) by {
      forall k | 0 <= k < |r|
        ensures IsIdentChar(r[k])
      {
        if k < |b| {
          assert r[k] == b[k];
        } else if k < |b| + |sep| {
          assert r[k] == sep[k - |b|];
        } else {
          assert r[k] == d[k - |b| - |sep|];
        }
      }
    }
    TranslateKeepsIdentifier(r);
    assert r[|r| - 1] == d[|d| - 1];
  }

  /**
   * Every name `uniquename` returns was unknown before the call and is
   * known after it, except the first `v0`/`w_0`, which is returned without
   * being entered. No count is lost and every name returned is made of
   * identifier characters.
   */
  lemma {:induction false} UniqueNameFresh(seen: map<string, nat>, basename: string)
    requires Counted(seen)
    ensures Counted(UniqueNameF(seen, basename).seen)
    ensures var r := UniqueNameF(seen, basename);
            var b := Translate(basename);
            (!IsNumbered(b) || b in seen) ==> r.name !in seen && r.name in r.seen
    ensures var r := UniqueNameF(seen, basename);
            seen.Keys <= r.seen.Keys && Translate(basename) in r.seen
    ensures IsIdentifier(UniqueNameF(seen, basename).name)
    decreases |LongKeys(seen, |basename|)|
  {
    var b := Translate(basename);
    var n := Get(seen, b);
    var seen' := seen[b := n + 1];
    TranslateIsIdentifier(basename);
    if n > 0 {
      if IsNumbered(b) {
        RetryName(b, "", n);
        assert b + "" + Decimal(n) == b + Decimal(n);
        LongKeysShrink(seen, b, n + 1, b + Decimal(n));
        UniqueNameFresh(seen', b + Decimal(n));
      } else {
        RetryName(b, "_", n);
        LongKeysShrink(seen, b, n + 1, b + "_" + Decimal(n));
        UniqueNameFresh(seen', b + "_" + Decimal(n));
      }
    } else if IsNumbered(b) {
      DigitsAreIdentifier(Decimal(0));
      var r := b + Decimal(0);
      assert forall k :: 0 <= k < |r| ==> IsIdentChar(r[k]) by {
        forall k | 0 <= k < |r|
          ensures IsIdentChar(r[k])
        {
          if k >= |b| {
            assert r[k] == Decimal(0)[k - |b|];
          }
        }
      }
    }
  }

  /** The first request for a name other than `v`/`w_` returns the translated name itself. */
  lemma UniqueNameFirstUse(seen: map<string, nat>, basename: string)
    requires Translate(basename) !in seen && !IsNumbered(Translate(basename))
    ensures UniqueNameF(seen, basename).name == Translate(basename)
    ensures UniqueNameF(seen, basename).seen == seen[Translate(basename) := 1]
  {
  }

  /** The first `v` (or `w_`) is `v0` (or `w_0`), and `v0` itself is not entered. */
  lemma UniqueNameNumberedFirstUse(seen: map<string, nat>, b: string)
    requires IsNumbered(b) && b !in seen
    ensures UniqueNameF(seen, b).name == b + "0"
    ensures UniqueNameF(seen, b).seen == seen[b := 1]
  {
    assert Translate(b) == b;
    assert Decimal(0) == "0";
  }

  /** So after `uniquename('v0')`, the first `uniquename('v')` returns `v0` again. */
  lemma UniqueNameRepeatsNumberedZero()
    ensures UniqueNameF(map[], "v0").name == "v0"
    ensures UniqueNameF(UniqueNameF(map[], "v0").seen, "v").name == "v0"
  {
    assert Translate("v0") == "v0";
    assert Translate("v") == "v";
    assert Decimal(0) == "0";
  }

  /** Two requests in a row, neither a first `v`/`w_`, never give the same name. */
  lemma UniqueNamesDiffer(seen: map<string, nat>, a: string, b: string)
    requires Counted(seen)
    requires !IsNumbered(Translate(a)) || Translate(a) in seen
    requires !IsNumbered(Translate(b)) || Translate(b) in UniqueNameF(seen, a).seen
    ensures UniqueNameF(UniqueNameF(seen, a).seen, b).name != UniqueNameF(seen, a).name
  {
    var first := UniqueNameF(seen, a);
    UniqueNameFresh(seen, a);
    UniqueNameFresh(first.seen, b);
  }

  // ---------------------------------------------------------------------
  // `_LocalScope.uniquename` and `localname`
  // ---------------------------------------------------------------------

  /** The names handed out per depth and base name (`glob.scopelist`). */
  type ScopeList = seq<map<string, seq<string>>>

  /** A local scope's counts, the shared per-depth lists and the global counts. */
  datatype ScopeState = ScopeState(used: map<string, nat>, scopes: ScopeList, seen: map<string, nat>)

  function NameList(names: map<string, seq<string>>, b: string): seq<string> {
    if b in names then names[b] else []
  }

  /**
   * `_LocalScope.uniquename(basename)` at depth `scope`: the `p`-th request
   * for a base name takes the `p`-th name of the list shared by every
   * scope at that depth, asking the global manager for a new one only when
   * the list has exactly `p` names. `None` is the `IndexError` of a missing
   * depth or of a list shorter than `p`.
   */
  function LocalUniqueName(st: ScopeState, scope: nat, basename: string): (r: (Option<string>, ScopeState))
    ensures r.0.None? <==>
              scope >= |st.scopes| ||
              Get(st.used, Translate(basename)) > |NameList(st.scopes[scope], Translate(basename))|
    ensures Get(r.1.used, Translate(basename)) == Get(st.used, Translate(basename)) + 1
    ensures |r.1.scopes| == |st.scopes|
  {
    var b := Translate(basename);
    var p := Get(st.used, b);
    var used := st.used[b := p + 1];
    if scope >= |st.scopes| then (None, ScopeState(used, st.scopes, st.seen))
    else
      var list := NameList(st.scopes[scope], b);
      var made := UniqueNameF(st.seen, b);
      var list' := if p == |list| then list + [made.name] else list;
      var seen' := if p == |list| then made.seen else st.seen;
      var scopes := st.scopes[scope := st.scopes[scope][b := list']];
      (if p < |list'| then Some(list'[p]) else None, ScopeState(used, scopes, seen'))
  }

  /** Every list of `before` is a prefix of its list in `after`: names are only ever added. */
  ghost predicate ListsGrow(before: ScopeList, after: ScopeList) {
    |before| <= |after| &&
    forall s, b :: 0 <= s < |before| && b in before[s] ==>
      b in after[s] && before[s][b] <= after[s][b]
  }

  /** A scope has never asked for more names than its depth's lists hold. */
  ghost predicate CountsCovered(used: map<string, nat>, scopes: ScopeList, scope: nat) {
    scope < |scopes| && forall b :: b in used ==> used[b] <= |NameList(scopes[scope], b)|
  }

  /**
   * The `p`-th request for a base name returns the `p`-th entry of the
   * depth's shared list: from the list as it was when that entry exists
   * already (no global name is made), otherwise a fresh global name.
   */
  lemma LocalUniqueNameEntry(st: ScopeState, scope: nat, basename: string)
    requires Counted(st.seen) && scope < |st.scopes|
    requires Get(st.used, Translate(basename)) <= |NameList(st.scopes[scope], Translate(basename))|
    ensures var (r, st') := LocalUniqueName(st, scope, basename);
            var b := Translate(basename);
            var p := Get(st.used, b);
            r.Some? && r.value == NameList(st'.scopes[scope], b)[p] &&
            Get(st'.used, b) == p + 1 &&
            (p < |NameList(st.scopes[scope], b)| ==>
              r.value == NameList(st.scopes[scope], b)[p] && st'.seen == st.seen) &&
            (p == |NameList(st.scopes[scope], b)| && (!IsNumbered(b) || b in st.seen) ==>
              r.value !in st.seen)
  {
    var b := Translate(basename);
    TranslateIdempotent(basename);
    UniqueNameFresh(st.seen, b);
  }

  /** Updating one base name's list at one depth leaves every other list as it was. */
  lemma NameListUpdate(scopes: ScopeList, scope: nat, b: string, list: seq<string>, s: nat, k: string)
    requires scope < |scopes| && s < |scopes|
    ensures NameList(scopes[scope := scopes[scope][b := list]][s], k) ==
            if s == scope && k == b then list else NameList(scopes[s], k)
  {
  }

  /**
   * A request keeps every list growing and, for the scope that makes it
   * and for every other scope at any depth, keeps the counts covered by
   * the lists, so `namelist[p]` never raises for a scope whose counts are
   * covered by its depth's lists.
   */
  lemma LocalUniqueNameKeepsCovered(st: ScopeState, scope: nat, basename: string,
                                    otherUsed: map<string, nat>, otherScope: nat)
    requires CountsCovered(st.used, st.scopes, scope)
    requires CountsCovered(otherUsed, st.scopes, otherScope)
    ensures var (r, st') := LocalUniqueName(st, scope, basename);
            r.Some? && ListsGrow(st.scopes, st'.scopes) && |st'.scopes| == |st.scopes| &&
            CountsCovered(st'.used, st'.scopes, scope) &&
            CountsCovered(otherUsed, st'.scopes, otherScope)
  {
    var b := Translate(basename);
    var p := Get(st.used, b);
    var list := NameList(st.scopes[scope], b);
    var made := UniqueNameF(st.seen, b);
    var list' := if p == |list| then list + [made.name] else list;
    var scopes := st.scopes[scope := st.scopes[scope][b := list']];
    var used := st.used[b := p + 1];
    assert p <= |list| && list <= list' && p < |list'|;
    assert LocalUniqueName(st, scope, basename).1.scopes == scopes;
    assert LocalUniqueName(st, scope, basename).1.used == used;
    forall s, k | 0 <= s < |st.scopes| && k in st.scopes[s]
      ensures k in scopes[s] && st.scopes[s][k] <= scopes[s][k]
    {
      NameListUpdate(st.scopes, scope, b, list', s, k);
    }
    forall k | k in used
      ensures used[k] <= |NameList(scopes[scope], k)|
    {
      NameListUpdate(st.scopes, scope, b, list', scope, k);
    }
    forall k | k in otherUsed
      ensures otherUsed[k] <= |NameList(scopes[otherScope], k)|
    {
      NameListUpdate(st.scopes, scope, b, list', otherScope, k);
    }
  }

  /**
   * `localname`'s mangling: `v<digits>` becomes `v` (`w_` when wrapped),
   * `<x>_<digits>` becomes `l_<x>` (`w_<x>` when wrapped), anything else
   * stays as it is.
   */
  function LocalBase(name: string, wrapped: bool): (r: string)
    ensures r == name || r == (if wrapped then "w_" else "v") ||
            (|r| >= 2 && r[..2] == (if wrapped then "w_" else "l_"))
  {
    var scorepos := RFind(name, '_');
    if |name| >= 1 && name[0] == 'v' && IsDigits(name[1..]) then
      if wrapped then "w_" else "v"
    else if scorepos >= 0 && IsDigits(name[scorepos + 1..]) then
      (if wrapped then "w_" else "l_") + name[..scorepos]
    else name
  }

  lemma LocalBaseNumbered(digits: string, wrapped: bool)
    requires IsDigits(digits)
    ensures LocalBase("v" + digits, wrapped) == if wrapped then "w_" else "v"
  {
    assert ("v" + digits)[1..] == digits;
  }

  lemma LocalBaseSuffixed(x: string, digits: string, wrapped: bool)
    requires IsDigits(digits)
    ensures LocalBase(x + "_" + digits, wrapped) == (if wrapped then "w_" else "l_") + x
  {
    var name := x + "_" + digits;
    var pos := RFind(name, '_');
    assert name[|x|] == '_';
    assert forall k :: |x| < k < |name| ==> name[k] == digits[k - |x| - 1];
    assert pos == |x|;
    assert name[pos + 1..] == digits;
    assert name[..pos] == x;
    if x == [] {
      assert name[0] == '_';
    } else {
      assert name[1..][|x| - 1] == '_';
    }
  }

  /** A name of neither form, `v<digits>` or `<x>_<digits>`, is used as it is. */
  lemma LocalBasePlain(name: string, wrapped: bool)
    requires forall d :: IsDigits(d) ==> name != "v" + d
    requires forall x, d :: IsDigits(d) ==> name != x + "_" + d
    ensures LocalBase(name, wrapped) == name
  {
    if |name| >= 1 && name[0] == 'v' {
      assert name == "v" + name[1..];
    }
    var pos := RFind(name, '_');
    if pos >= 0 {
      assert name == name[..pos] + "_" + name[pos + 1..];
    }
  }

  /** For example `a_b` and `x_` keep their underscore and are used as they are. */
  lemma LocalBasePlainSamples(wrapped: bool)
    ensures LocalBase("a_b", wrapped) == "a_b"
    ensures LocalBase("x_", wrapped) == "x_"
  {
    assert RFind("a_b", '_') == 1 && "a_b"[2..] == "b";
    assert RFind("x_", '_') == 1 && "x_"[2..] == [];
  }

  // ---------------------------------------------------------------------
  // The two classes
  // ---------------------------------------------------------------------

  class NameManager {
    /** How often each global name has been handed out or reserved. */
    var seennames: map<string, nat>
    /** The depth of the global scope. */
    const scope: nat
    /** Per depth, the local names handed out for each base name. */
    var scopelist: ScopeList

    /** Every global name known to the manager has been counted at least once. */
    ghost predicate Valid()
      reads this
    {
      Counted(seennames)
    }

    constructor()
      ensures Valid()
      ensures seennames == map[] && scope == 0 && scopelist == []
    {
      seennames := map[];
      scope := 0;
      scopelist := [];
    }

    /** `make_reserved_names(txt)`; `ok == false` is the `NameError`. */
    method MakeReservedNames(txt: string) returns (ok: bool)
      requires Valid()
      modifies this
      ensures Valid()
      ensures Reserved(ok, seennames) == Reserve(old(seennames), Words(txt))
      ensures scopelist == old(scopelist)
    {
      var words := Words(txt);
      var i := 0;
      while i < |words|
        invariant 0 <= i <= |words|
        invariant Reserve(old(seennames), words) == Reserve(seennames, words[i..])
        invariant scopelist == old(scopelist)
        invariant Valid()
      {
        assert words[i..][0] == words[i] && words[i..][1..] == words[i + 1..];
        if words[i] in seennames {
          return false;
        }
        seennames := seennames[words[i] := 1];
        i := i + 1;
      }
      assert words[i..] == [];
      ok := true;
    }

    /** `uniquename(basename)`. */
    method UniqueName(basename: string) returns (name: string)
      requires Valid()
      modifies this
      ensures Valid()
      ensures Named(name, seennames) == UniqueNameF(old(seennames), basename)
      ensures scopelist == old(scopelist)
      decreases |LongKeys(seennames, |basename|)|
    {
      var b := Translate(basename);
      var n := Get(seennames, b);
      seennames := seennames[b := n + 1];
      if IsNumbered(b) {
        if n == 0 {
          name := b + Decimal(n);
        } else {
          LongKeysShrink(old(seennames), b, n + 1, b + Decimal(n));
          name := UniqueName(b + Decimal(n));
        }
      } else if n == 0 {
        name := b;
      } else {
        LongKeysShrink(old(seennames), b, n + 1, b + "_" + Decimal(n));
        name := UniqueName(b + "_" + Decimal(n));
      }
    }

    /** `localScope(parent)`: a new scope one level below `parent` (or below this manager). */
    method NewLocalScope(parent: LocalScope? := null) returns (ret: LocalScope)
      requires Valid()
      modifies this
      ensures Valid()
      ensures fresh(ret) && ret.glob == this && ret.parent == parent
      ensures ret.scope == (if parent == null then scope else parent.scope) + 1
      ensures ret.mapping == map[] && ret.usednames == map[]
      ensures ret.scope < |scopelist|
      ensures |scopelist| == if ret.scope < |old(scopelist)| then |old(scopelist)| else ret.scope + 1
      ensures scopelist[..|old(scopelist)|] == old(scopelist)
      ensures forall s :: |old(scopelist)| <= s < |scopelist| ==> scopelist[s] == map[]
      ensures seennames == old(seennames)
    {
      ret := new LocalScope(this, parent);
      while ret.scope >= |scopelist|
        invariant |old(scopelist)| <= |scopelist| <= if ret.scope < |old(scopelist)| then |old(scopelist)| else ret.scope + 1
        invariant scopelist[..|old(scopelist)|] == old(scopelist)
        invariant forall s :: |old(scopelist)| <= s < |scopelist| ==> scopelist[s] == map[]
        invariant seennames == old(seennames)
        invariant ret.mapping == map[] && ret.usednames == map[]
        decreases ret.scope - |scopelist|
      {
        scopelist := scopelist + [map[]];
      }
    }
  }

  class LocalScope {
    const glob: NameManager
    /** The enclosing scope; `null` stands for the global manager. */
    const parent: LocalScope?
    const scope: nat
    /** `localname` results so far. */
    var mapping: map<string, string>
    /** How often this scope has asked for each base name. */
    var usednames: map<string, nat>

    constructor(glob: NameManager, parent: LocalScope?)
      ensures this.glob == glob && this.parent == parent
      ensures scope == (if parent == null then glob.scope else parent.scope) + 1
      ensures mapping == map[] && usednames == map[]
    {
      this.glob := glob;
      this.parent := parent;
      scope := (if parent == null then glob.scope else parent.scope) + 1;
      mapping := map[];
      usednames := map[];
    }

    /** `uniquename(basename)`; `None` is an `IndexError`. */
    method UniqueName(basename: string) returns (r: Option<string>)
      requires glob.Valid()
      modifies this, glob
      ensures glob.Valid()
      ensures (r, ScopeState(usednames, glob.scopelist, glob.seennames)) ==
              LocalUniqueName(old(ScopeState(usednames, glob.scopelist, glob.seennames)), scope, basename)
      ensures mapping == old(mapping)
    {
      ghost var st := ScopeState(usednames, glob.scopelist, glob.seennames);
      var b := Translate(basename);
      var p := Get(usednames, b);
      usednames := usednames[b := p + 1];
      if scope >= |glob.scopelist| {
        return None;
      }
      var list := NameList(glob.scopelist[scope], b);
      ghost var made := UniqueNameF(st.seen, b);
      glob.scopelist := glob.scopelist[scope := glob.scopelist[scope][b := list]];
      if p == |list| {
        var name := glob.UniqueName(b);
        assert name == made.name && glob.seennames == made.seen;
        list := list + [name];
        glob.scopelist := glob.scopelist[scope := glob.scopelist[scope][b := list]];
        assert glob.scopelist[scope] == st.scopes[scope][b := list];
      }
      assert glob.scopelist == st.scopes[scope := st.scopes[scope][b := list]];
      if p < |list| {
        r := Some(list[p]);
      } else {
        r := None;
      }
    }

    /** `localname(name, wrapped)`: the cached name, or a new one for the mangled base name. */
    method LocalName(name: string, wrapped: bool := false) returns (r: Option<string>)
      requires glob.Valid()
      modifies this, glob
      ensures glob.Valid()
      ensures old(name in mapping) ==>
                r == Some(old(mapping[name])) && mapping == old(mapping) &&
                usednames == old(usednames) && glob.scopelist == old(glob.scopelist) &&
                glob.seennames == old(glob.seennames)
      ensures old(name !in mapping) ==>
                (r, ScopeState(usednames, glob.scopelist, glob.seennames)) ==
                LocalUniqueName(old(ScopeState(usednames, glob.scopelist, glob.seennames)), scope,
                                LocalBase(name, wrapped)) &&
                mapping == if r.Some? then old(mapping)[name := r.value] else old(mapping)
      ensures r.Some? ==> name in mapping && mapping[name] == r.value
    {
      if name in mapping {
        return Some(mapping[name]);
      }
      r := UniqueName(LocalBase(name, wrapped));
      if r.Some? {
        mapping := mapping[name := r.value];
      }
    }
  }
}
