/** host_list of tools/helpers/props.py: reading what getprop prints. */
module Getprop {
  import opened Strings
  import opened Lines

  const SEP := "]: ["

  /** One line of getprop's output. */
  function Printed(key: string, value: string): string { "[" + key + SEP + value + "]" }

  function PrintedLines(es: seq<(string, string)>): seq<string> {
    seq(|es|, i requires 0 <= i < |es| => Printed(es[i].0, es[i].1))
  }

  /** What the loop body makes of one line. */
  function ParseLine(raw: string, prefix: string): Option<(string, string)> {
    var line := Strip(raw);
    if !("[" + prefix <= line) then None
    else match Find(line, SEP)
      case None => None
      case Some(i) =>
        var key, value := line[..i][if i == 0 then 0 else 1..], line[i + |SEP|..];
        var v := if value != [] && value[|value| - 1] == ']' then value[..|value| - 1] else value;
        if prefix <= key then Some((key, v)) else None
  }

  function Store(m: map<string, string>, e: Option<(string, string)>): map<string, string> {
    match e
    case None => m
    case Some(kv) => m[kv.0 := kv.1]
  }

  function Collect(lines: seq<string>, prefix: string): map<string, string> {
    if lines == [] then map[]
    else Store(Collect(lines[..|lines| - 1], prefix), ParseLine(lines[|lines| - 1], prefix))
  }

  lemma CollectNext(lines: seq<string>, i: nat, prefix: string)
    requires i < |lines|
    ensures Collect(lines[..i + 1], prefix) == Store(Collect(lines[..i], prefix), ParseLine(lines[i], prefix))
  {
    assert lines[..i + 1][..i] == lines[..i] && lines[..i + 1][i] == lines[i];
  }

  method HostList(output: string, prefix: string) returns (result: map<string, string>)
    ensures result == Collect(Split(output, StringBreak), prefix)
  {
    var lines := Split(output, StringBreak);
    result := map[];
    for i := 0 to |lines|
      invariant result == Collect(lines[..i], prefix)
    {
      CollectNext(lines, i, prefix);
      result := StoreLine(result, lines[i], prefix);
    }
    assert lines[..|lines|] == lines;
  }

  /** The loop body. */
  method StoreLine(result: map<string, string>, raw: string, prefix: string) returns (m: map<string, string>)
    ensures m == Store(result, ParseLine(raw, prefix))
  {
    m := result;
    var line := Strip(raw);
    var found := Find(line, SEP);
    if !("[" + prefix <= line) || found.None? { return; }
    var key, value := line[..found.value], line[found.value + |SEP|..];
    if key != "" { key := key[1..]; }
    if value != "" && value[|value| - 1] == ']' { value := value[..|value| - 1]; }
    if prefix <= key { m := m[key := value]; }
  }

  lemma StripPrinted(key: string, value: string)
    ensures Strip(Printed(key, value)) == Printed(key, value)
  {
    var s := Printed(key, value);
    assert s[0] == '[' && s[|s| - 1] == ']';
  }

  lemma AtSeparator(s: string, j: nat)
    ensures At(s, SEP, j) <==>
            j + 4 <= |s| && s[j] == ']' && s[j + 1] == ':' && s[j + 2] == ' ' && s[j + 3] == '['
  {
    if j + 4 <= |s| {
      assert s[j..j + 4] == [s[j], s[j + 1], s[j + 2], s[j + 3]];
    }
  }

  /** The separator cannot overlap itself, so in a printed line it stands where the key ends, and
      earlier only where the key itself contains it. */
  lemma SeparatorPlaces(key: string, value: string, j: nat)
    requires j <= |key|
    ensures At(Printed(key, value), SEP, j) <==> 1 <= j && At(key, SEP, j - 1)
    ensures At(Printed(key, value), SEP, |key| + 1)
  {
    var s := Printed(key, value);
    AtSeparator(s, j);
    AtSeparator(s, |key| + 1);
    if j > 0 { AtSeparator(key, j - 1); }
    assert s[0] == '[' && s[|key| + 1] == ']';
    assert forall i :: 0 <= i < |key| ==> s[i + 1] == key[i];
  }

  lemma FirstPlace(s: string, key: string, sep: string)
    requires At(s, sep, |key| + 1)
    requires forall j: nat :: j <= |key| ==> (At(s, sep, j) <==> 1 <= j && At(key, sep, j - 1))
    ensures Find(s, sep).Some? && Find(s, sep).value <= |key| + 1
    ensures Find(s, sep).value == |key| + 1 <==> !Contains(key, sep)
  {
    FindIsFirst(s, sep, |key| + 1);
    FindIsContains(key, sep);
    var i := Find(s, sep).value;
    if i <= |key| {
      FindIsFirst(key, sep, i - 1);
    } else if Contains(key, sep) {
      var k := Find(key, sep).value;
      if k + 1 <= |key| { FindIsFirst(s, sep, k + 1); }
    }
  }

  lemma FirstSeparator(key: string, value: string)
    ensures Find(Printed(key, value), SEP).Some?
    ensures Find(Printed(key, value), SEP).value == |key| + 1 <==> !Contains(key, SEP)
    ensures Find(Printed(key, value), SEP).value <= |key| + 1
  {
    SeparatorPlaces(key, value, 0);
    forall j: nat | j <= |key| ensures At(Printed(key, value), SEP, j) <==> 1 <= j && At(key, SEP, j - 1) {
      SeparatorPlaces(key, value, j);
    }
    FirstPlace(Printed(key, value), key, SEP);
  }

  lemma PrintedParses(key: string, value: string, prefix: string)
    requires !Contains(key, SEP)
    ensures ParseLine(Printed(key, value), prefix) == if prefix <= key then Some((key, value)) else None
  {
    StripPrinted(key, value);
    FirstSeparator(key, value);
    PrintedParts(key, value);
    PrintedStart(key, value, prefix);
  }

  /** The two sides of the separator that ends the key. */
  lemma PrintedParts(key: string, value: string)
    ensures var s, n := Printed(key, value), |key| + 1;
            && n + |SEP| <= |s| && s[..n][1..] == key
            && s[n + |SEP|..] == value + "]" && s[n + |SEP|..][..|value|] == value
  {}

  lemma PrintedStart(key: string, value: string, prefix: string)
    ensures prefix <= key ==> "[" + prefix <= Printed(key, value)
  {
    if prefix <= key {
      assert Printed(key, value) == ("[" + prefix) + (key[|prefix|..] + SEP + value + "]");
    }
  }

  /** A printed entry is read back exactly when its key does not contain the separator. */
  lemma PrintedParsesBack(key: string, value: string)
    ensures ParseLine(Printed(key, value), "") == Some((key, value)) <==> !Contains(key, SEP)
  {
    if !Contains(key, SEP) {
      PrintedParses(key, value, "");
    } else {
      StripPrinted(key, value);
      FirstSeparator(key, value);
    }
  }

  /** Any other line: white space around it does not matter, and without an opening bracket with the
      prefix, or without the separator, it is passed over. */
  lemma OtherLines(prefix: string, before: string, raw: string, after: string)
    requires Spaces(before) && Spaces(after) && Trimmed(raw)
    ensures ParseLine(before + raw + after, prefix) == ParseLine(raw, prefix)
    ensures !("[" + prefix <= raw) || !Contains(raw, SEP) ==> ParseLine(raw, prefix) == None
  {
    StripPadded(before, raw, after);
    StripTrimmed(raw);
    FindIsContains(raw, SEP);
  }

  lemma StripTrimmed(raw: string)
    requires Trimmed(raw)
    ensures Strip(raw) == raw
  {
    StripPadded("", raw, "");
    assert "" + raw + "" == raw;
  }

  /** A value that is not closed is taken as it is. */
  lemma UnclosedParses(key: string, value: string, prefix: string)
    requires value != "" && value[|value| - 1] != ']' && !IsSpace(value[|value| - 1]) && !Contains(key, SEP)
    ensures ParseLine("[" + key + SEP + value, prefix) == if prefix <= key then Some((key, value)) else None
  {
    var raw := "[" + key + SEP + value;
    assert raw[0] == '[' && raw[|raw| - 1] == value[|value| - 1];
    StripTrimmed(raw);
    UnclosedSeparator(key, value, raw);
    UnclosedParts(key, value);
    UnclosedStart(key, value, prefix);
  }

  lemma UnclosedParts(key: string, value: string)
    ensures var s, n := "[" + key + SEP + value, |key| + 1;
            n + |SEP| <= |s| && s[..n][1..] == key && s[n + |SEP|..] == value
  {}

  lemma UnclosedStart(key: string, value: string, prefix: string)
    ensures prefix <= key ==> "[" + prefix <= "[" + key + SEP + value
  {
    if prefix <= key {
      assert "[" + key + SEP + value == ("[" + prefix) + (key[|prefix|..] + SEP + value);
    }
  }

  lemma UnclosedSeparator(key: string, value: string, s: string)
    requires s == "[" + key + SEP + value && !Contains(key, SEP)
    ensures Find(s, SEP) == Some(|key| + 1)
  {
    var t := Printed(key, value);
    AtSeparator(s, |key| + 1);
    forall j: nat | j <= |key| ensures At(s, SEP, j) <==> 1 <= j && At(key, SEP, j - 1) {
      SeparatorPlaces(key, value, j);
      AtSeparator(s, j);
      AtSeparator(t, j);
      assert t == s + "]";
    }
    FirstPlace(s, key, SEP);
  }

  /** The property map restricted to keys with the prefix; a later entry replaces an earlier one. */
  function Wanted(es: seq<(string, string)>, prefix: string): map<string, string> {
    if es == [] then map[]
    else
      var e := es[|es| - 1];
      Store(Wanted(es[..|es| - 1], prefix), if prefix <= e.0 then Some(e) else None)
  }

  lemma {:induction false} CollectPrinted(es: seq<(string, string)>, prefix: string)
    requires forall i :: 0 <= i < |es| ==> !Contains(es[i].0, SEP)
    ensures Collect(PrintedLines(es), prefix) == Wanted(es, prefix)
  {
    if es != [] {
      var n := |es| - 1;
      CollectPrinted(es[..n], prefix);
      assert PrintedLines(es)[..n] == PrintedLines(es[..n]);
      PrintedParses(es[n].0, es[n].1, prefix);
    }
  }

  lemma PrintedHasNoBreak(key: string, value: string)
    requires NoBreak(key, StringBreak) && NoBreak(value, StringBreak)
    ensures NoBreak(Printed(key, value), StringBreak)
  {
    var s := Printed(key, value);
    forall i | 0 <= i < |s| ensures !StringBreak(s[i]) {
      if 1 <= i <= |key| { assert s[i] == key[i - 1]; }
      else if |key| + 5 <= i < |s| - 1 { assert s[i] == value[i - |key| - 5]; }
      else if i == 0 || i == |s| - 1 {}
      else { assert s[i] == SEP[i - |key| - 1]; }
    }
  }

  /** host_list inverts getprop's printing: whatever the values hold, brackets and separators
      included, the result is the property map restricted to the prefix. */
  lemma HostListInvertsGetprop(es: seq<(string, string)>, prefix: string)
    requires forall i :: 0 <= i < |es| ==>
               !Contains(es[i].0, SEP) && NoBreak(es[i].0, StringBreak) && NoBreak(es[i].1, StringBreak)
    ensures Collect(Split(Unlines(PrintedLines(es)), StringBreak), prefix) == Wanted(es, prefix)
  {
    forall i | 0 <= i < |es| ensures NoBreak(PrintedLines(es)[i], StringBreak) {
      PrintedHasNoBreak(es[i].0, es[i].1);
    }
    SplitUnlines(PrintedLines(es), StringBreak);
    CollectPrinted(es, prefix);
  }

  lemma {:induction false} WantedKeys(es: seq<(string, string)>, prefix: string, key: string)
    ensures key in Wanted(es, prefix) ==> exists i :: 0 <= i < |es| && es[i].0 == key
  {
    if es != [] {
      var n := |es| - 1;
      WantedKeys(es[..n], prefix, key);
      if i :| 0 <= i < n && es[..n][i].0 == key { assert es[i].0 == key; }
    }
  }

  /** With distinct keys the result holds exactly the entries whose key has the prefix. */
  lemma {:induction false} WantedEntries(es: seq<(string, string)>, prefix: string, key: string, value: string)
    requires forall i, j :: 0 <= i < j < |es| ==> es[i].0 != es[j].0
    ensures var m := Wanted(es, prefix);
            key in m && m[key] == value <==> (key, value) in es && prefix <= key
  {
    if es != [] {
      var n := |es| - 1;
      var e := es[n];
      WantedEntries(es[..n], prefix, key, value);
      WantedKeys(es[..n], prefix, key);
      assert (key, value) in es <==> (key, value) in es[..n] || e == (key, value) by {
        assert es == es[..n] + [e];
      }
      if e.0 == key {
        assert forall i :: 0 <= i < n ==> es[..n][i] == es[i] && es[i].0 != key;
      }
    }
  }
}
