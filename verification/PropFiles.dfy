/** The [properties] overrides at the end of make_base_props (tools/helpers/lxc.py) and the
    reader file_get of tools/helpers/props.py. */
module PropFiles {
  import opened Strings
  import opened Lines

  // ----- the loop that pops from the list it enumerates -----

  /** How many adjacent entries up to and including number `j` contain `pat`. */
  function RunLength(props: seq<string>, pat: string, j: nat): nat
    requires j < |props|
  {
    if !Contains(props[j], pat) then 0
    else 1 + if j == 0 then 0 else RunLength(props, pat, j - 1)
  }

  /** Entries number 1, 3, 5, ... of each run of matching neighbours are dropped. */
  function Survivors(props: seq<string>, pat: string, n: nat): seq<string>
    requires n <= |props|
  {
    if n == 0 then []
    else Survivors(props, pat, n - 1)
         + if RunLength(props, pat, n - 1) % 2 == 1 then [] else [props[n - 1]]
  }

  /** What the loop is meant to leave. */
  function Unmatched(props: seq<string>, pat: string, n: nat): seq<string>
    requires n <= |props|
  {
    if n == 0 then []
    else Unmatched(props, pat, n - 1) + if Contains(props[n - 1], pat) then [] else [props[n - 1]]
  }

  function Override(props: seq<string>, key: string, value: string): seq<string> {
    Survivors(props, key + "=", |props|) + [key + "=" + value]
  }

  function Overrides(props: seq<string>, ovs: seq<(string, string)>): seq<string> {
    if ovs == [] then props
    else Override(Overrides(props, ovs[..|ovs| - 1]), ovs[|ovs| - 1].0, ovs[|ovs| - 1].1)
  }

  /** The enumeration has passed the first `p` entries of `was`, and `left` is what is left of them. */
  ghost predicate Passed(was: seq<string>, pat: string, p: nat, left: seq<string>, props: seq<string>, idx: nat) {
    && p <= |was| && left == Survivors(was, pat, p) && props == left + was[p..]
    && (idx == |left| || (p == |was| && idx > |left|))
    && (0 < p < |was| ==> RunLength(was, pat, p - 1) % 2 == 0)
  }

  /** The inner loop: `for idx, elem in enumerate(props): if pat in elem: props.pop(idx)`. */
  method PopMatching(was: seq<string>, pat: string) returns (props: seq<string>)
    ensures props == Survivors(was, pat, |was|)
  {
    props := was;
    ghost var p, left: seq<string> := 0, [];
    var idx := 0;
    while idx < |props|
      invariant Passed(was, pat, p, left, props, idx)
      decreases |was| - p
    {
      var elem := props[idx];
      if Contains(elem, pat) {
        p, left := PassMatch(was, pat, p, left, props, idx);
        props := props[..idx] + props[idx + 1..];
      } else {
        p, left := PassOther(was, pat, p, left, props, idx);
      }
      idx := idx + 1;
    }
  }

  /** An entry that does not match stays. */
  lemma PassOther(was: seq<string>, pat: string, p: nat, left: seq<string>, props: seq<string>, idx: nat)
    returns (p1: nat, left1: seq<string>)
    requires Passed(was, pat, p, left, props, idx) && idx < |props| && !Contains(props[idx], pat)
    ensures p < p1 && Passed(was, pat, p1, left1, props, idx + 1)
  {
    p1, left1 := p + 1, left + [was[p]];
    assert props[idx] == was[p];
    assert RunLength(was, pat, p) == 0;
  }

  /** Right after an entry that stays, a match is dropped, and the entry after it stays unseen. */
  lemma PassMatch(was: seq<string>, pat: string, p: nat, left: seq<string>, props: seq<string>, idx: nat)
    returns (p1: nat, left1: seq<string>)
    requires Passed(was, pat, p, left, props, idx) && idx < |props| && Contains(props[idx], pat)
    ensures p < p1 && Passed(was, pat, p1, left1, props[..idx] + props[idx + 1..], idx + 1)
  {
    DropAt(left, was, p);
    MatchIsDropped(was, pat, p);
    if p + 1 < |was| {
      p1, left1 := p + 2, left + [was[p + 1]];
    } else {
      p1, left1 := p + 1, left;
    }
  }

  lemma DropAt<T>(left: seq<T>, was: seq<T>, p: nat)
    requires p < |was|
    ensures var props := left + was[p..];
            props[|left|] == was[p] && props[..|left|] + props[|left| + 1..] == left + was[p + 1..]
    ensures p + 1 < |was| ==> left + was[p + 1..] == (left + [was[p + 1]]) + was[p + 2..]
  {}

  lemma MatchIsDropped(was: seq<string>, pat: string, p: nat)
    requires p < |was| && Contains(was[p], pat) && (p > 0 ==> RunLength(was, pat, p - 1) % 2 == 0)
    ensures Survivors(was, pat, p + 1) == Survivors(was, pat, p)
    ensures p + 1 < |was| ==>
              RunLength(was, pat, p + 1) % 2 == 0
              && Survivors(was, pat, p + 2) == Survivors(was, pat, p) + [was[p + 1]]
  {
    assert RunLength(was, pat, p) % 2 == 1;
    assert Survivors(was, pat, p) + [] == Survivors(was, pat, p);
    if p + 1 < |was| {
      assert RunLength(was, pat, p + 1) == if Contains(was[p + 1], pat) then 1 + RunLength(was, pat, p) else 0;
    }
  }

  /** The file that is written out: one entry per line. */
  method WriteProps(base: seq<string>, ovs: seq<(string, string)>) returns (file: string)
    ensures file == Unlines(Overrides(base, ovs))
  {
    var props := base;
    for i := 0 to |ovs|
      invariant props == Overrides(base, ovs[..i])
    {
      assert ovs[..i + 1][..i] == ovs[..i];
      props := PopMatching(props, ovs[i].0 + "=");
      props := props + [ovs[i].0 + "=" + ovs[i].1];
    }
    assert ovs[..|ovs|] == ovs;
    file := Unlines(props);
  }

  ghost predicate NoNeighbours(props: seq<string>, pat: string, n: nat)
    requires n <= |props|
  {
    forall j :: 0 < j < n ==> !(Contains(props[j - 1], pat) && Contains(props[j], pat))
  }

  lemma {:induction false} UnmatchedIsShorter(props: seq<string>, pat: string, n: nat)
    requires n <= |props|
    ensures |Unmatched(props, pat, n)| <= |Survivors(props, pat, n)|
    ensures (exists j :: 0 <= j < n && RunLength(props, pat, j) > 0 && RunLength(props, pat, j) % 2 == 0) ==>
              |Unmatched(props, pat, n)| < |Survivors(props, pat, n)|
  {
    if n > 0 { UnmatchedIsShorter(props, pat, n - 1); }
  }

  lemma {:induction false} SurvivorsOfSingles(props: seq<string>, pat: string, n: nat)
    requires n <= |props| && NoNeighbours(props, pat, n)
    ensures Survivors(props, pat, n) == Unmatched(props, pat, n)
  {
    if n > 0 {
      SurvivorsOfSingles(props, pat, n - 1);
      assert RunLength(props, pat, n - 1) <= 1;
    }
  }

  /** Popping while enumerating is the intended filter exactly when no two neighbours match. */
  lemma PopIsFilterIffNoNeighbours(props: seq<string>, pat: string)
    ensures Survivors(props, pat, |props|) == Unmatched(props, pat, |props|) <==> NoNeighbours(props, pat, |props|)
  {
    if NoNeighbours(props, pat, |props|) {
      SurvivorsOfSingles(props, pat, |props|);
    } else {
      var j :| 0 < j < |props| && Contains(props[j - 1], pat) && Contains(props[j], pat);
      var n := RunLength(props, pat, j - 1);
      assert RunLength(props, pat, j) == n + 1;
      assert n % 2 == 0 || (n + 1) % 2 == 0;
      UnmatchedIsShorter(props, pat, |props|);
    }
  }

  // ----- file_get -----

  /** What the loop of file_get makes of one line: None to go on. */
  function LineValue(raw: string, prop: string): Option<string> {
    var line := Strip(raw);
    if line == "" || line[0] == '#' then None
    else match Find(line, "=")
      case None => if line == prop then Some("") else None
      case Some(i) => if line[..i] == prop then Some(line[i + 1..]) else None
  }

  function Lookup(lines: seq<string>, prop: string): string {
    if lines == [] then ""
    else match LineValue(lines[0], prop)
      case Some(v) => v
      case None => Lookup(lines[1..], prop)
  }

  method FileGet(file: string, prop: string) returns (v: string)
    ensures v == Lookup(Split(file, FileBreak), prop)
  {
    var lines := Split(file, FileBreak);
    for i := 0 to |lines|
      invariant Lookup(lines, prop) == Lookup(lines[i..], prop)
    {
      var line := Strip(lines[i]);
      assert lines[i..][1..] == lines[i + 1..];
      if |line| == 0 || line[0] == '#' {
        continue;
      }
      var at := Find(line, "=");
      var k := if at.Some? then line[..at.value] else line;
      if k == prop {
        return if at.Some? then line[at.value + 1..] else "";
      }
    }
    return "";
  }

  /** A line gives the key this value: it is not empty or a comment after trimming, and it is the key, an
      equals sign and the value, or the key alone and the value is empty. */
  ghost predicate Gives(raw: string, prop: string, v: string) {
    var line := Strip(raw);
    && line != "" && line[0] != '#' && '=' !in prop
    && (line == prop + "=" + v || (line == prop && v == ""))
  }

  lemma {:induction false} NoEqualsFound(s: string)
    ensures Find(s, "=").Some? <==> '=' in s
    ensures Find(s, "=").Some? ==> '=' !in s[..Find(s, "=").value]
  {
    if s != "" {
      assert "=" <= s <==> s[0] == '=';
      NoEqualsFound(s[1..]);
      if s[0] != '=' && Find(s[1..], "=").Some? {
        var i := Find(s[1..], "=").value;
        assert s[..i + 1] == [s[0]] + s[1..][..i];
      }
      assert s == [s[0]] + s[1..];
    }
  }

  lemma LineGives(raw: string, prop: string, v: string)
    ensures LineValue(raw, prop) == Some(v) <==> Gives(raw, prop, v)
  {
    var line := Strip(raw);
    NoEqualsFound(line);
    if Gives(raw, prop, v) && line == prop + "=" + v {
      NoEqualsFound(prop);
      FindIsContains(prop, "=");
      FirstEquals(prop, v);
      assert line[..|prop|] == prop && line[|prop| + 1..] == v;
    }
    if LineValue(raw, prop) == Some(v) && Find(line, "=").Some? {
      var i := Find(line, "=").value;
      assert line[i..i + 1] == "=";
      assert line == line[..i] + "=" + line[i + 1..];
    }
  }

  /** file_get: the first line that gives the key decides, and no comment or empty line ever does; where
      none gives it the value is empty. */
  lemma {:induction false} FirstLineDecides(lines: seq<string>, prop: string, v: string)
    ensures Lookup(lines, prop) == v <==>
            || (exists i :: 0 <= i < |lines| && Gives(lines[i], prop, v)
                            && forall j, u :: 0 <= j < i ==> !Gives(lines[j], prop, u))
            || (v == "" && forall j, u :: 0 <= j < |lines| ==> !Gives(lines[j], prop, u))
  {
    LookupFirst(lines, prop);
    if k :| 0 <= k < |lines| && LineValue(lines[k], prop).Some?
            && forall j :: 0 <= j < k ==> LineValue(lines[j], prop).None? {
      var u := LineValue(lines[k], prop).value;
      LineGives(lines[k], prop, u);
      LineGives(lines[k], prop, v);
      forall j, w | 0 <= j < k ensures !Gives(lines[j], prop, w) { LineGives(lines[j], prop, w); }
      if i :| 0 <= i < |lines| && Gives(lines[i], prop, v) && forall j, u :: 0 <= j < i ==> !Gives(lines[j], prop, u) {
        LineGives(lines[i], prop, v);
        assert i == k;
      }
    } else {
      forall j, w | 0 <= j < |lines| ensures !Gives(lines[j], prop, w) { LineGives(lines[j], prop, w); }
    }
  }

  lemma {:induction false} LookupFirst(lines: seq<string>, prop: string)
    ensures || (exists k :: 0 <= k < |lines| && LineValue(lines[k], prop) == Some(Lookup(lines, prop))
                            && forall j :: 0 <= j < k ==> LineValue(lines[j], prop).None?)
            || (Lookup(lines, prop) == "" && forall j :: 0 <= j < |lines| ==> LineValue(lines[j], prop).None?)
  {
    if lines != [] && LineValue(lines[0], prop).None? {
      LookupFirst(lines[1..], prop);
      assert forall j :: 0 < j < |lines| ==> lines[j] == lines[1..][j - 1];
      if k :| 0 <= k < |lines[1..]| && LineValue(lines[1..][k], prop) == Some(Lookup(lines[1..], prop))
              && forall j :: 0 <= j < k ==> LineValue(lines[1..][j], prop).None? {
        assert LineValue(lines[k + 1], prop) == Some(Lookup(lines, prop));
      }
    }
  }

  // ----- writing and reading back -----

  /** A line that survives the trip: single, trimmed, key=value, not a comment. */
  ghost predicate PlainEntry(e: string) {
    && NoBreak(e, FileBreak) && e != "" && !IsSpace(e[0]) && !IsSpace(e[|e| - 1]) && e[0] != '#'
    && Find(e, "=").Some?
  }

  function KeyOf(e: string): string
    requires Find(e, "=").Some?
  { e[..Find(e, "=").value] }

  ghost predicate PlainProps(props: seq<string>) {
    forall i :: 0 <= i < |props| ==> PlainEntry(props[i])
  }

  /** Only the entries of the key itself contain its `key=` text. */
  ghost predicate OnlyOwnEntries(props: seq<string>, key: string)
    requires PlainProps(props)
  {
    forall i :: 0 <= i < |props| ==> (Contains(props[i], key + "=") ==> KeyOf(props[i]) == key)
  }

  lemma PlainLineValue(e: string, prop: string)
    requires PlainEntry(e)
    ensures LineValue(e, prop) == if KeyOf(e) == prop then Some(e[|KeyOf(e)| + 1..]) else None
    ensures Contains(e, KeyOf(e) + "=")
  {
    var i := Find(e, "=").value;
    assert Strip(e) == e;
    assert e[i..i + 1] == "=";
    assert e[0..i + 1] == KeyOf(e) + "=";
    AtStart(e, KeyOf(e) + "=");
  }

  /** A key that can be written: `key=value` is then a plain entry with that key. */
  ghost predicate PlainKey(key: string) {
    key != "" && !IsSpace(key[0]) && key[0] != '#' && NoBreak(key, FileBreak) && !Contains(key, "=")
  }

  /** A value that survives: single line, no trailing white space. */
  ghost predicate PlainValue(value: string) {
    NoBreak(value, FileBreak) && (value == "" || !IsSpace(value[|value| - 1]))
  }

  lemma {:induction false} FirstEquals(key: string, value: string)
    requires !Contains(key, "=")
    ensures Find(key + "=" + value, "=") == Some(|key|)
  {
    var e := key + "=" + value;
    if key == "" {
      assert "=" <= e;
    } else {
      assert e[0] == key[0] && e[1..] == key[1..] + "=" + value;
      assert "=" <= key <==> key[0] == '=';
      FirstEquals(key[1..], value);
    }
  }

  lemma WrittenEntry(key: string, value: string)
    requires PlainKey(key) && PlainValue(value)
    ensures PlainEntry(key + "=" + value) && KeyOf(key + "=" + value) == key
    ensures (key + "=" + value)[|key| + 1..] == value
  {
    FirstEquals(key, value);
    var e := key + "=" + value;
    assert forall i :: 0 <= i < |e| ==>
                         e[i] == if i < |key| then key[i] else if i == |key| then '=' else value[i - |key| - 1];
    assert e[..|key|] == key;
  }

  ghost predicate Has(lines: seq<string>, prop: string) {
    exists i :: 0 <= i < |lines| && LineValue(lines[i], prop).Some?
  }

  lemma {:induction false} LookupAppend(a: seq<string>, b: seq<string>, prop: string)
    ensures Lookup(a + b, prop) == if Has(a, prop) then Lookup(a, prop) else Lookup(b, prop)
    ensures Has(a + b, prop) <==> Has(a, prop) || Has(b, prop)
    ensures !Has(a, prop) ==> Lookup(a, prop) == ""
  {
    HasAppend(a, b, prop);
    if a == [] {
      assert a + b == b;
    } else {
      assert (a + b)[1..] == a[1..] + b;
      LookupAppend(a[1..], b, prop);
      HasAppend([a[0]], a[1..], prop);
      assert a == [a[0]] + a[1..];
    }
  }

  lemma HasAppend(a: seq<string>, b: seq<string>, prop: string)
    ensures Has(a + b, prop) <==> Has(a, prop) || Has(b, prop)
    ensures |a| == 1 ==> (Has(a, prop) <==> LineValue(a[0], prop).Some?)
  {
    HasIff(a, prop);
    HasIff(b, prop);
    HasIff(a + b, prop);
    assert forall e :: e in a + b <==> e in a || e in b;
  }

  lemma HasIff(lines: seq<string>, prop: string)
    ensures Has(lines, prop) <==> exists e :: e in lines && LineValue(e, prop).Some?
  {
    if e :| e in lines && LineValue(e, prop).Some? { HasMember(lines, e, prop); }
  }

  lemma LookupSnoc(lines: seq<string>, e: string, prop: string)
    requires PlainEntry(e)
    ensures Has(lines + [e], prop) <==> Has(lines, prop) || KeyOf(e) == prop
    ensures Lookup(lines + [e], prop) ==
            if Has(lines, prop) then Lookup(lines, prop) else if KeyOf(e) == prop then e[|prop| + 1..] else ""
  {
    PlainLineValue(e, prop);
    LookupAppend(lines, [e], prop);
    HasAppend([e], [], prop);
  }

  /** The intended filter hides the key and nothing else. */
  lemma {:induction false} UnmatchedHidesKey(props: seq<string>, key: string, n: nat, prop: string)
    requires n <= |props| && PlainProps(props) && OnlyOwnEntries(props, key)
    ensures Hides(props[..n], Unmatched(props, key + "=", n), key, prop)
  {
    if n > 0 {
      UnmatchedHidesKey(props, key, n - 1, prop);
      var e, left := props[n - 1], Unmatched(props, key + "=", n - 1);
      OwnEntry(props, key, n - 1);
      assert props[..n] == props[..n - 1] + [e];
      assert Unmatched(props, key + "=", n) == if KeyOf(e) == key then left else left + [e];
      HidesNext(props[..n - 1], left, e, key, prop);
    }
  }

  lemma OwnEntry(props: seq<string>, key: string, i: nat)
    requires i < |props| && PlainProps(props) && OnlyOwnEntries(props, key)
    ensures Contains(props[i], key + "=") <==> KeyOf(props[i]) == key
  {
    PlainLineValue(props[i], key);
  }

  lemma {:induction false} UnmatchedArePlain(props: seq<string>, pat: string, n: nat)
    requires n <= |props| && PlainProps(props)
    ensures PlainProps(Unmatched(props, pat, n))
  {
    if n > 0 { UnmatchedArePlain(props, pat, n - 1); }
  }

  ghost predicate Hides(props: seq<string>, left: seq<string>, key: string, prop: string) {
    && (Has(left, prop) <==> prop != key && Has(props, prop))
    && (prop != key ==> Lookup(left, prop) == Lookup(props, prop))
  }

  lemma HidesNext(props: seq<string>, left: seq<string>, e: string, key: string, prop: string)
    requires PlainEntry(e) && Hides(props, left, key, prop)
    ensures Hides(props + [e], if KeyOf(e) == key then left else left + [e], key, prop)
  {
    LookupSnoc(props, e, prop);
    LookupSnoc(left, e, prop);
    LookupAppend(props, [], prop);
    LookupAppend(left, [], prop);
  }

  lemma AppendedReads(lines: seq<string>, e: string, key: string, value: string, prop: string)
    requires PlainEntry(e) && KeyOf(e) == key && e[|key| + 1..] == value && !Has(lines, key)
    ensures Lookup(lines + [e], prop) ==
            if prop == key then value else if Has(lines, prop) then Lookup(lines, prop) else ""
  {
    LookupSnoc(lines, e, prop);
  }

  /** One override with no two neighbouring entries of its key: the key reads as the new value and
      every other key as before. */
  lemma OverrideReads(props: seq<string>, key: string, value: string, prop: string)
    requires PlainProps(props) && OnlyOwnEntries(props, key) && PlainKey(key) && PlainValue(value)
    requires NoNeighbours(props, key + "=", |props|)
    ensures PlainProps(Override(props, key, value))
    ensures Lookup(Override(props, key, value), prop) == if prop == key then value else Lookup(props, prop)
  {
    var e, left := key + "=" + value, Unmatched(props, key + "=", |props|);
    PopIsFilterIffNoNeighbours(props, key + "=");
    UnmatchedArePlain(props, key + "=", |props|);
    UnmatchedHidesKey(props, key, |props|, prop);
    UnmatchedHidesKey(props, key, |props|, key);
    assert props[..|props|] == props;
    WrittenEntry(key, value);
    assert Override(props, key, value) == left + [e];
    AppendedReads(left, e, key, value, prop);
    if !Has(props, prop) { LookupAppend(props, [], prop); }
  }

  lemma {:induction false} EvenRunSurvives(props: seq<string>, pat: string, n: nat, j: nat)
    requires j < n <= |props| && RunLength(props, pat, j) % 2 == 0
    ensures props[j] in Survivors(props, pat, n)
  {
    if j < n - 1 { EvenRunSurvives(props, pat, n - 1, j); }
  }

  lemma MatchSurvives(props: seq<string>, pat: string) returns (m: nat)
    requires !NoNeighbours(props, pat, |props|)
    ensures m < |props| && Contains(props[m], pat) && props[m] in Survivors(props, pat, |props|)
  {
    var j :| 0 < j < |props| && Contains(props[j - 1], pat) && Contains(props[j], pat);
    assert RunLength(props, pat, j) == 1 + RunLength(props, pat, j - 1);
    m := if RunLength(props, pat, j) % 2 == 0 then j else j - 1;
    EvenRunSurvives(props, pat, |props|, m);
  }

  lemma NeighbourSurvives(props: seq<string>, key: string)
    requires PlainProps(props) && OnlyOwnEntries(props, key) && !NoNeighbours(props, key + "=", |props|)
    ensures Has(Survivors(props, key + "=", |props|), key)
  {
    var left := Survivors(props, key + "=", |props|);
    var m := MatchSurvives(props, key + "=");
    PlainLineValue(props[m], key);
    HasMember(left, props[m], key);
  }

  lemma HasMember(lines: seq<string>, e: string, prop: string)
    requires e in lines && LineValue(e, prop).Some?
    ensures Has(lines, prop)
  {
    var i :| 0 <= i < |lines| && lines[i] == e;
    assert LineValue(lines[i], prop).Some?;
  }

  /** Exactly when one override takes effect: no two neighbours of its key, or the old value that
      survives happens to be the new one. */
  lemma OverrideTakesEffectIff(props: seq<string>, key: string, value: string)
    requires PlainProps(props) && OnlyOwnEntries(props, key) && PlainKey(key) && PlainValue(value)
    ensures Lookup(Override(props, key, value), key) == value <==>
            NoNeighbours(props, key + "=", |props|) || Lookup(Survivors(props, key + "=", |props|), key) == value
  {
    if NoNeighbours(props, key + "=", |props|) {
      OverrideReads(props, key, value, key);
    } else {
      NeighbourSurvives(props, key);
      LookupAppend(Survivors(props, key + "=", |props|), [key + "=" + value], key);
    }
  }

  /** Each override, on the list the earlier ones left, meets only its own entries, no two of
      them next to each other. */
  ghost predicate Orderly(props: seq<string>, ovs: seq<(string, string)>) {
    ovs == [] ||
    (var n := |ovs| - 1;
     var now := Overrides(props, ovs[..n]);
     && Orderly(props, ovs[..n])
     && PlainKey(ovs[n].0) && PlainValue(ovs[n].1)
     && PlainProps(now) && OnlyOwnEntries(now, ovs[n].0) && NoNeighbours(now, ovs[n].0 + "=", |now|))
  }

  function Chosen(ovs: seq<(string, string)>, prop: string): Option<string> {
    if ovs == [] then None
    else if ovs[|ovs| - 1].0 == prop then Some(ovs[|ovs| - 1].1)
    else Chosen(ovs[..|ovs| - 1], prop)
  }

  lemma {:induction false} OverridesRead(props: seq<string>, ovs: seq<(string, string)>, prop: string)
    requires PlainProps(props) && Orderly(props, ovs)
    ensures PlainProps(Overrides(props, ovs))
    ensures Lookup(Overrides(props, ovs), prop) ==
            match Chosen(ovs, prop) case Some(v) => v case None => Lookup(props, prop)
  {
    if ovs != [] {
      var n := |ovs| - 1;
      OverridesRead(props, ovs[..n], prop);
      OverrideReads(Overrides(props, ovs[..n]), ovs[n].0, ovs[n].1, prop);
    }
  }

  /** Writing the file and reading it with file_get gives each override its value and leaves
      every other key as it was. */
  lemma WriteThenRead(props: seq<string>, ovs: seq<(string, string)>, prop: string)
    requires PlainProps(props) && Orderly(props, ovs)
    ensures Lookup(Split(Unlines(Overrides(props, ovs)), FileBreak), prop) ==
            match Chosen(ovs, prop)
            case Some(v) => v
            case None => Lookup(Split(Unlines(props), FileBreak), prop)
  {
    OverridesRead(props, ovs, prop);
    SplitUnlines(props, FileBreak);
    SplitUnlines(Overrides(props, ovs), FileBreak);
  }

  function Matches(props: seq<string>, pat: string, n: nat): nat
    requires n <= |props|
  {
    if n == 0 then 0 else Matches(props, pat, n - 1) + if Contains(props[n - 1], pat) then 1 else 0
  }

  lemma {:induction false} MatchesAppend(a: seq<string>, b: seq<string>, pat: string, n: nat)
    requires n <= |b|
    ensures Matches(a + b, pat, |a| + n) == Matches(a, pat, |a|) + Matches(b, pat, n)
  {
    if n > 0 {
      MatchesAppend(a, b, pat, n - 1);
    } else if |a| > 0 {
      MatchesTake(a + b, a, pat, |a|);
    }
  }

  lemma {:induction false} MatchesTake(a: seq<string>, b: seq<string>, pat: string, n: nat)
    requires n <= |a| && n <= |b| && a[..n] == b[..n]
    ensures Matches(a, pat, n) == Matches(b, pat, n)
  {
    if n > 0 {
      assert a[n - 1] == a[..n][n - 1] == b[n - 1];
      assert a[..n - 1] == a[..n][..n - 1] == b[..n - 1];
      MatchesTake(a, b, pat, n - 1);
    }
  }

  lemma {:induction false} SurvivorsShrink(props: seq<string>, pat: string, n: nat, other: string)
    requires n <= |props|
    ensures var left := Survivors(props, pat, n);
            Matches(left, other, |left|) <= Matches(props, other, n) && forall e :: e in left ==> e in props
  {
    if n > 0 {
      SurvivorsShrink(props, pat, n - 1, other);
      var left, e := Survivors(props, pat, n - 1), props[n - 1];
      assert left + [] == left;
      MatchesAppend(left, [e], other, 1);
      assert Matches([e], other, 1) == Matches([e], other, 0) + if Contains([e][0], other) then 1 else 0;
    }
  }

  lemma {:induction false} FewMatchesNoNeighbours(props: seq<string>, pat: string, n: nat)
    requires n <= |props| && Matches(props, pat, n) <= 1
    ensures NoNeighbours(props, pat, n)
    ensures forall j :: 0 <= j < n && Contains(props[j], pat) ==> Matches(props, pat, n) == 1
  {
    if n > 0 { FewMatchesNoNeighbours(props, pat, n - 1); }
  }

  /** What can be checked beforehand: base and overrides are plain, no key of an override is
      contained in another key's entry or override, and each occurs at most once in the base. */
  ghost predicate SeparateKeys(props: seq<string>, ovs: seq<(string, string)>) {
    && PlainProps(props)
    && (forall i :: 0 <= i < |ovs| ==> PlainKey(ovs[i].0) && PlainValue(ovs[i].1))
    && (forall i :: 0 <= i < |ovs| ==>
          OnlyOwnEntries(props, ovs[i].0) && Matches(props, ovs[i].0 + "=", |props|) <= 1)
    && (forall i, j :: 0 <= i < j < |ovs| ==> !Contains(ovs[i].0 + "=" + ovs[i].1, ovs[j].0 + "="))
  }

  lemma {:induction false} OverridesStayIn(props: seq<string>, ovs: seq<(string, string)>, n: nat, pat: string)
    requires n <= |ovs| && forall i :: 0 <= i < n ==> !Contains(ovs[i].0 + "=" + ovs[i].1, pat)
    ensures var now := Overrides(props, ovs[..n]);
            && Matches(now, pat, |now|) <= Matches(props, pat, |props|)
            && forall e :: e in now && Contains(e, pat) ==> e in props
  {
    if n == 0 {
      assert ovs[..0] == [];
    } else {
      OverridesStayIn(props, ovs, n - 1, pat);
      assert ovs[..n][..n - 1] == ovs[..n - 1];
      var was, o := Overrides(props, ovs[..n - 1]), ovs[n - 1];
      var left, e := Survivors(was, o.0 + "=", |was|), o.0 + "=" + o.1;
      SurvivorsShrink(was, o.0 + "=", |was|, pat);
      MatchesAppend(left, [e], pat, 1);
      assert Matches([e], pat, 1) == Matches([e], pat, 0) + if Contains([e][0], pat) then 1 else 0;
    }
  }

  lemma NextOverrideIsOrderly(props: seq<string>, now: seq<string>, key: string)
    requires PlainProps(props) && PlainProps(now) && OnlyOwnEntries(props, key)
    requires Matches(now, key + "=", |now|) <= 1
    requires forall e :: e in now && Contains(e, key + "=") ==> e in props
    ensures OnlyOwnEntries(now, key) && NoNeighbours(now, key + "=", |now|)
  {
    FewMatchesNoNeighbours(now, key + "=", |now|);
    forall i | 0 <= i < |now| && Contains(now[i], key + "=") ensures KeyOf(now[i]) == key {
      assert now[i] in now;
      var j :| 0 <= j < |props| && props[j] == now[i];
      assert Contains(props[j], key + "=");
    }
  }

  lemma {:induction false} SeparateKeysAreOrderly(props: seq<string>, ovs: seq<(string, string)>, n: nat)
    requires n <= |ovs| && SeparateKeys(props, ovs)
    ensures Orderly(props, ovs[..n])
  {
    if n > 0 {
      var key := ovs[n - 1].0;
      SeparateKeysAreOrderly(props, ovs, n - 1);
      assert ovs[..n][..n - 1] == ovs[..n - 1] && ovs[..n][n - 1] == ovs[n - 1];
      OverridesRead(props, ovs[..n - 1], key);
      OverridesStayIn(props, ovs, n - 1, key + "=");
      NextOverrideIsOrderly(props, Overrides(props, ovs[..n - 1]), key);
    }
  }

  /** Checking the base list alone is not enough: here no two neighbours share a key, but the
      first override takes out the entry between the other two, and the second is lost. */
  lemma CascadeLosesOverride()
    ensures var props, ovs := ["b=1", "a=1", "b=2"], [("a", "9"), ("b", "9")];
            && NoNeighbours(props, "a=", 3) && NoNeighbours(props, "b=", 3)
            && Lookup(Overrides(props, ovs), "b") == "2"
  {
    CascadeMatches();
    CascadeList();
    CascadeValue();
  }

  lemma CascadeList()
    ensures Overrides(["b=1", "a=1", "b=2"], [("a", "9"), ("b", "9")]) == ["b=2", "a=9", "b=9"]
  {
    var props, ovs := ["b=1", "a=1", "b=2"], [("a", "9"), ("b", "9")];
    CascadeFirst();
    CascadeSecond();
    assert ovs[..1][..0] == [] && ovs[..1][0] == ovs[0];
    assert Overrides(props, ovs[..1]) == Override(props, "a", "9");
  }

  lemma CascadeValue()
    ensures LineValue("b=2", "b") == Some("2")
  {
    var b, eq := "b", "=";
    assert |eq| == 1 && eq[0] == '=' && b[0] == 'b' && b[1..] == "";
    assert !(eq <= b[1..]) && !Contains(b[1..], eq);
    assert !(eq <= b);
    FirstEquals("b", "2");
    assert "b" + "=" + "2" == "b=2" && "b=2"[..1] == "b" && "b=2"[2..] == "2";
  }

  lemma CascadeMatches()
    ensures Contains("a=1", "a=") && !Contains("b=1", "a=") && !Contains("b=2", "a=")
    ensures Contains("b=1", "b=") && Contains("b=2", "b=") && !Contains("a=1", "b=") && !Contains("a=9", "b=")
  {
    InEntry("b=1", "a=");
    InEntry("a=1", "a=");
    InEntry("b=2", "a=");
    InEntry("b=1", "b=");
    InEntry("a=1", "b=");
    InEntry("b=2", "b=");
    InEntry("a=9", "b=");
  }

  lemma CascadeFirst()
    ensures Override(["b=1", "a=1", "b=2"], "a", "9") == ["b=1", "b=2", "a=9"]
  {
    CascadeMatches();
    assert "a" + "=" == "a=" && "a" + "=" + "9" == "a=9";
    SurvivorsOf3(["b=1", "a=1", "b=2"], "a=");
  }

  lemma CascadeSecond()
    ensures Override(["b=1", "b=2", "a=9"], "b", "9") == ["b=2", "a=9", "b=9"]
  {
    CascadeMatches();
    assert "b" + "=" == "b=" && "b" + "=" + "9" == "b=9";
    SurvivorsOf3(["b=1", "b=2", "a=9"], "b=");
  }

  lemma InEntry(e: string, pat: string)
    requires |e| == 3 && |pat| == 2
    ensures Contains(e, pat) <==> (e[0] == pat[0] && e[1] == pat[1]) || (e[1] == pat[0] && e[2] == pat[1])
  {
    var t, u := e[1..], e[1..][1..];
    assert !Contains(u[1..], pat) && !Contains(u, pat);
    assert Contains(t, pat) <==> pat <= t;
    assert pat <= t <==> t[0] == pat[0] && t[1] == pat[1];
    assert pat <= e <==> e[0] == pat[0] && e[1] == pat[1];
  }

  lemma SurvivorsOf3(ps: seq<string>, pat: string)
    requires |ps| == 3
    ensures Survivors(ps, pat, 3) ==
            (if Contains(ps[0], pat) then [] else [ps[0]])
            + (if Contains(ps[1], pat) && !Contains(ps[0], pat) then [] else [ps[1]])
            + (if Contains(ps[2], pat) && (!Contains(ps[1], pat) || Contains(ps[0], pat)) then [] else [ps[2]])
  {
    assert RunLength(ps, pat, 0) == if Contains(ps[0], pat) then 1 else 0;
    assert RunLength(ps, pat, 1) == if Contains(ps[1], pat) then 1 + RunLength(ps, pat, 0) else 0;
    assert RunLength(ps, pat, 2) == if Contains(ps[2], pat) then 1 + RunLength(ps, pat, 1) else 0;
    assert Survivors(ps, pat, 1) == if Contains(ps[0], pat) then [] else [ps[0]];
  }
}
