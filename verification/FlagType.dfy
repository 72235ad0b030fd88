/** go/flagtype/flagtype.go: sets of strings, and maps of such sets, as command-line flags. */
module FlagType {
  import opened Strings
  import opened Results
  import opened Sequences

  // ---- Printing and parsing sets.

  ghost function Members(s: seq<string>): set<string> {
    set x | x in s
  }

  /** A listing of the set in order; there is only one. */
  ghost predicate Lists(l: seq<string>, s: set<string>) {
    Strings.Sorted(l) && Members(l) == s
  }

  lemma {:induction false} ListingExists(s: set<string>) returns (l: seq<string>)
    ensures Lists(l, s)
    decreases |s|
  {
    if s == {} {
      l := [];
    } else {
      var x :| x in s;
      var rest := ListingExists(s - {x});
      l := Insert(x, rest);
      assert x !in rest by {
        assert forall y :: y in rest <==> y in Members(rest);
      }
      InsertSorts(x, rest);
      forall y
        ensures y in Members(l) <==> y in s
      {
        assert y in rest <==> y in Members(rest);
        assert y in l <==> y in Members(l);
      }
    }
  }

  lemma SomeListing(s: set<string>)
    ensures exists l :: Lists(l, s)
  {
    var l := ListingExists(s);
  }

  /** The elements of a set, in order. */
  ghost function Listing(s: set<string>): (l: seq<string>)
    ensures Lists(l, s)
  {
    SomeListing(s);
    var l :| Lists(l, s);
    l
  }

  lemma ListingIsUnique(l: seq<string>, s: set<string>)
    requires Lists(l, s)
    ensures l == Listing(s)
  {
    forall y
      ensures y in l <==> y in Listing(s)
    {
      assert y in l <==> y in Members(l);
      assert y in Listing(s) <==> y in Members(Listing(s));
    }
    SortedIsUnique(l, Listing(s));
  }

  /** StringSet.String. */
  ghost function Render(s: set<string>): string {
    Join(Listing(s), ',')
  }

  /** What StringSet.Set makes of a raw value. */
  ghost function Parse(raw: string): set<string> {
    if raw == "" then {} else Members(Split(raw, ','))
  }

  ghost predicate NoneContains(s: set<string>, c: char) {
    forall x :: x in s ==> c !in x
  }

  lemma RenderOfSingleton(s: set<string>, x: string)
    requires s == {x}
    ensures Listing(s) == [x] && Render(s) == x
  {
    assert Members([x]) == {x};
    ListingIsUnique([x], s);
  }

  lemma RenderIsEmpty(s: set<string>)
    ensures Render(s) == "" <==> s == {} || s == {""}
  {
    var l := Listing(s);
    if |l| == 0 {
      assert s == Members(l) == {};
    } else if |l| == 1 {
      assert s == Members(l) == {l[0]};
      RenderOfSingleton(s, l[0]);
    } else {
      assert l[0] in Members(l) && l[1] in Members(l);
      assert l[0] != l[1] by {
        LessIsIrreflexive(l[0]);
        assert Less(l[0], l[1]);
      }
      assert s != {""};
      assert |Join(l, ',')| >= 1;
    }
  }

  /** Parsing what was printed restores the set exactly when no element has a comma and it is not {""}. */
  lemma SetRoundTrip(s: set<string>)
    ensures Parse(Render(s)) == s <==> NoneContains(s, ',') && s != {""}
  {
    RenderIsEmpty(s);
    var l := Listing(s);
    if NoneContains(s, ',') && s != {""} && s != {} {
      forall i | 0 <= i < |l|
        ensures ',' !in l[i]
      {
        assert l[i] in Members(l);
      }
      assert |l| > 0;
      SplitUndoesJoin(l, ',');
    }
    ParsedIsClean(Render(s), ',');
  }

  /** No element of a parsed set has a comma, nor any character that the raw value did not have. */
  lemma ParsedIsClean(raw: string, c: char)
    ensures c == ',' || c !in raw ==> NoneContains(Parse(raw), c)
  {
    SplitParts(raw, ',');
    forall x | x in Parse(raw) && (c == ',' || c !in raw)
      ensures c !in x
    {
      var parts := Split(raw, ',');
      var i :| 0 <= i < |parts| && parts[i] == x;
    }
  }

  // ---- Printing and parsing maps.

  /** The text of one entry. */
  ghost function Entry(m: map<string, set<string>>, k: string): string
    requires k in m
  {
    k + "=" + Render(m[k])
  }

  ghost function Entries(m: map<string, set<string>>, keys: seq<string>): (parts: seq<string>)
    requires forall k :: k in keys ==> k in m
    ensures |parts| == |keys|
  {
    seq(|keys|, i requires 0 <= i < |keys| => Entry(m, keys[i]))
  }

  lemma ListingIsKeys(m: map<string, set<string>>)
    ensures forall k :: k in Listing(m.Keys) <==> k in m
  {
    forall k
      ensures k in Listing(m.Keys) <==> k in m
    {
      assert k in Listing(m.Keys) <==> k in Members(Listing(m.Keys));
    }
  }

  /** StringToStringSet.String. */
  ghost function RenderMap(m: map<string, set<string>>): string {
    ListingIsKeys(m);
    Join(Entries(m, Listing(m.Keys)), ';')
  }

  /**
   What StringToStringSet.Set makes of the parts, one after the other. A part without "=" indexes past the end of a
   slice: the call panics, with the entries so far in place.
   */
  ghost function ParseParts(parts: seq<string>): Result<map<string, set<string>>, map<string, set<string>>>
    decreases |parts|
  {
    if parts == [] then Ok(map[])
    else
      var last := parts[|parts| - 1];
      match ParseParts(parts[..|parts| - 1])
      case Err(e) => Err(e)
      case Ok(m) =>
        var i := IndexOf(last, '=');
        if i == |last| then Err(m) else Ok(m[last[..i] := Parse(last[i + 1..])])
  }

  ghost function ParseMap(raw: string): Result<map<string, set<string>>, map<string, set<string>>> {
    if raw == "" then Ok(map[]) else ParseParts(Split(raw, ';'))
  }

  /** Keys, values and sets that survive printing. */
  ghost predicate Printable(m: map<string, set<string>>) {
    forall k :: k in m ==> PrintableEntry(k, m[k])
  }

  ghost predicate PrintableEntry(k: string, s: set<string>) {
    ParsedEntry(k, s) && s != {""}
  }

  /** What can be said of every parsed entry. */
  ghost predicate ParsedEntry(k: string, s: set<string>) {
    ';' !in k && '=' !in k && NoneContains(s, ';') && NoneContains(s, ',')
  }

  lemma {:induction false} ParsedEntries(parts: seq<string>)
    requires Free(parts, ';') && ParseParts(parts).Ok?
    ensures forall k :: k in ParseParts(parts).value ==> ParsedEntry(k, ParseParts(parts).value[k])
    decreases |parts|
  {
    if parts != [] {
      var n := |parts| - 1;
      var last := parts[n];
      ParsedEntries(parts[..n]);
      var i := IndexOf(last, '=');
      assert ';' !in last;
      assert ';' !in last[..i] && ';' !in last[i + 1..];
      ParsedIsClean(last[i + 1..], ';');
      ParsedIsClean(last[i + 1..], ',');
    }
  }

  /** Splitting a printed entry at its first "=" gives back the key and the printed set. */
  lemma EntrySplits(k: string, text: string)
    requires '=' !in k
    ensures var e := k + "=" + text;
            IndexOf(e, '=') == |k| && e[..|k|] == k && e[|k| + 1..] == text
  {
    var e := k + "=" + text;
    assert e[..|k|] == k;
    FirstIs(e, '=', |k|);
  }

  /** Parsing the entries of some keys gives those keys, each with its set printed and parsed. */
  lemma {:induction false} EntriesParse(m: map<string, set<string>>, keys: seq<string>)
    requires forall k :: k in keys ==> k in m && '=' !in k
    ensures ParseParts(Entries(m, keys)).Ok?
    ensures ParseParts(Entries(m, keys)).value == map k | k in keys :: Parse(Render(m[k]))
    decreases |keys|
  {
    if keys != [] {
      var n := |keys| - 1;
      assert keys == keys[..n] + [keys[n]];
      EntriesParse(m, keys[..n]);
      assert Entries(m, keys)[..n] == Entries(m, keys[..n]);
      EntrySplits(keys[n], Render(m[keys[n]]));
    }
  }

  lemma RenderHas(s: set<string>, c: char)
    requires c != ',' && NoneContains(s, c)
    ensures c !in Render(s)
  {
    var l := Listing(s);
    JoinContains(l, ',', c);
    forall i | 0 <= i < |l|
      ensures c !in l[i]
    {
      assert l[i] in Members(l);
    }
  }

  /** Each set printed and parsed. */
  ghost function Reparsed(m: map<string, set<string>>): map<string, set<string>> {
    map k | k in m :: Parse(Render(m[k]))
  }

  /** With keys and values that have no separators, the printed map parses to each set printed and parsed. */
  lemma ParsedRendering(m: map<string, set<string>>)
    requires forall k :: k in m ==> ParsedEntry(k, m[k])
    ensures ParseMap(RenderMap(m)) == Ok(Reparsed(m))
  {
    ListingIsKeys(m);
    var keys := Listing(m.Keys);
    var parts := Entries(m, keys);
    var want := Reparsed(m);
    if keys == [] {
      assert m.Keys == Members([]) == {};
      assert want == map[];
    } else {
      forall i | 0 <= i < |parts|
        ensures ';' !in parts[i]
      {
        assert keys[i] in keys;
        RenderHas(m[keys[i]], ';');
      }
      SplitUndoesJoin(parts, ';');
      JoinNotEmpty(parts);
      EntriesParse(m, keys);
      assert (map k | k in keys :: Parse(Render(m[k]))) == want;
    }
  }

  lemma JoinNotEmpty(parts: seq<string>)
    requires |parts| > 0 && parts[0] != ""
    ensures Join(parts, ';') != ""
  {
  }

  /**
   Parsing what was printed restores the map exactly when no key has ';' or '=', no value has ';' or ',', and no
   set is {""}.
   */
  lemma MapRoundTrip(m: map<string, set<string>>)
    ensures ParseMap(RenderMap(m)) == Ok(m) <==> Printable(m)
  {
    hide ParseMap, RenderMap, ParsedEntry, Reparsed;
    if ParseMap(RenderMap(m)) == Ok(m) {
      RestoredIsParsed(m);
      ParsedRendering(m);
      ReparsedIsSame(m);
    }
    if Printable(m) {
      ParsedRendering(m);
      ReparsedIsSame(m);
    }
  }

  lemma ReparsedIsSame(m: map<string, set<string>>)
    requires forall k :: k in m ==> ParsedEntry(k, m[k])
    ensures Reparsed(m) == m <==> Printable(m)
  {
    hide Parse, Render;
    forall k | k in m
      ensures Parse(Render(m[k])) == m[k] <==> PrintableEntry(k, m[k])
    {
      SetRoundTrip(m[k]);
    }
    if Reparsed(m) == m {
      forall k | k in m
        ensures PrintableEntry(k, m[k])
      {
        assert m[k] == Reparsed(m)[k];
      }
    }
  }

  lemma RestoredIsParsed(m: map<string, set<string>>)
    requires ParseMap(RenderMap(m)) == Ok(m)
    ensures forall k :: k in m ==> ParsedEntry(k, m[k])
  {
    var raw := RenderMap(m);
    if raw != "" {
      SplitParts(raw, ';');
      ParsedEntries(Split(raw, ';'));
    }
  }

  // ---- The flags.

  /** A map's keys are walked in any order; sorted, they are the same. */
  method SortedElements(s: set<string>) returns (vals: seq<string>)
    ensures vals == Listing(s)
  {
    vals := [];
    var left := s;
    while left != {}
      invariant left <= s && Members(vals) == s - left
      invariant Distinct(vals)
      decreases |left|
    {
      var v :| v in left;
      assert v !in vals by {
        assert v in vals <==> v in Members(vals);
      }
      assert Members(vals + [v]) == Members(vals) + {v};
      vals := vals + [v];
      left := left - {v};
    }
    SortSorts(vals);
    assert Members(Sort(vals)) == Members(vals);
    vals := Sort(vals);
    ListingIsUnique(vals, s);
  }

  class StringSet {
    var elements: set<string>

    constructor (vals: seq<string>)
      ensures elements == Members(vals)
    {
      elements := set x | x in vals;
    }

    method String() returns (s: string)
      ensures s == Render(elements)
    {
      var vals := SortedElements(elements);
      s := Join(vals, ',');
    }

    method Set(raw: string)
      modifies this
      ensures elements == Parse(raw)
    {
      elements := {};
      if raw == "" {
        return;
      }
      var parts := Split(raw, ',');
      for i := 0 to |parts|
        invariant elements == Members(parts[..i])
      {
        assert parts[..i + 1] == parts[..i] + [parts[i]];
        elements := elements + {parts[i]};
      }
      assert parts[..|parts|] == parts;
    }
  }

  class StringToStringSet {
    var sets: map<string, set<string>>

    constructor ()
      ensures sets == map[]
    {
      sets := map[];
    }

    method String() returns (s: string)
      ensures s == RenderMap(sets)
    {
      var keys := SortedElements(sets.Keys);
      ListingIsKeys(sets);
      var parts: seq<string> := [];
      for i := 0 to |keys|
        invariant parts == Entries(sets, keys)[..i]
      {
        assert keys[i] in keys;
        var elements := new StringSet([]);
        elements.elements := sets[keys[i]];
        var text := elements.String();
        parts := parts + [keys[i] + "=" + text];
      }
      assert parts == Entries(sets, keys);
      s := Join(parts, ';');
    }

    /**
     False when the call panics, which it does exactly at a part without "=". What is in place then, or at the end, is
     for every key of the parts before it what the last of these with that key says.
     */
    method Set(raw: string) returns (ok: bool)
      modifies this
      ensures match ParseMap(raw)
              case Ok(m) => ok && sets == m
              case Err(m) => !ok && sets == m
      ensures !ok <==> raw != "" && exists part :: part in Split(raw, ';') && '=' !in part
      ensures raw == "" ==> sets == map[]
      ensures raw != "" ==> LastWins(Split(raw, ';')[..Readable(Split(raw, ';'))], sets)
    {
      PanicsExactly(raw);
      hide ParseParts, Split, LastWins, Readable, Parse;
      sets := map[];
      if raw == "" {
        return true;
      }
      var parts := Split(raw, ';');
      NothingParsed(parts);
      for i := 0 to |parts|
        invariant ParseParts(parts[..i]) == Ok(sets)
      {
        ParsedOneMore(parts, i);
        var part := parts[i];
        var at := IndexOf(part, '=');
        if at == |part| {
          PanicIsFinal(parts, i + 1);
          return false;
        }
        var elements := new StringSet([]);
        elements.Set(part[at + 1..]);
        sets := sets[part[..at] := elements.elements];
      }
      assert parts[..|parts|] == parts;
      return true;
    }
  }

  lemma NothingParsed(parts: seq<string>)
    ensures ParseParts(parts[..0]) == Ok(map[])
  {
  }

  lemma ParsedOneMore(parts: seq<string>, i: nat)
    requires i < |parts| && ParseParts(parts[..i]).Ok?
    ensures var (m, at) := (ParseParts(parts[..i]).value, IndexOf(parts[i], '='));
            ParseParts(parts[..i + 1]) ==
            if at == |parts[i]| then Err(m) else Ok(m[parts[i][..at] := Parse(parts[i][at + 1..])])
  {
    hide Parse;
    assert parts[..i + 1][..i] == parts[..i];
  }

  // ---- What the loop leaves, without the loop.

  /** How many parts come before the first one without "=". */
  function Readable(parts: seq<string>): (n: nat)
    ensures n <= |parts| && (n < |parts| ==> '=' !in parts[n])
    ensures forall i :: 0 <= i < n ==> '=' in parts[i]
  {
    if parts == [] || '=' !in parts[0] then 0 else 1 + Readable(parts[1..])
  }

  function KeyOf(part: string): string {
    part[..IndexOf(part, '=')]
  }

  ghost function SetOf(part: string): set<string>
    requires '=' in part
  {
    Parse(part[IndexOf(part, '=') + 1..])
  }

  /** The map has the keys of the parts, and for each what the last part with that key says. */
  ghost predicate LastWins(parts: seq<string>, m: map<string, set<string>>) {
    && (forall k :: k in m <==> exists i :: 0 <= i < |parts| && KeyOf(parts[i]) == k)
    && (forall i :: 0 <= i < |parts| && IsLast(parts, i) ==>
          '=' in parts[i] && KeyOf(parts[i]) in m && m[KeyOf(parts[i])] == SetOf(parts[i]))
  }

  ghost predicate IsLast(parts: seq<string>, i: nat)
    requires i < |parts|
  {
    forall j :: i < j < |parts| ==> KeyOf(parts[j]) != KeyOf(parts[i])
  }

  lemma {:induction false} AllReadable(parts: seq<string>)
    requires forall i :: 0 <= i < |parts| ==> '=' in parts[i]
    ensures ParseParts(parts).Ok? && LastWins(parts, ParseParts(parts).value)
    decreases |parts|
  {
    hide Parse;
    if parts != [] {
      var n := |parts| - 1;
      AllReadable(parts[..n]);
      assert '=' in parts[n];
      LastWinsOneMore(parts[..n], parts[n], ParseParts(parts[..n]).value);
      assert parts == parts[..n] + [parts[n]];
    }
  }

  lemma LastWinsOneMore(parts: seq<string>, part: string, m: map<string, set<string>>)
    requires LastWins(parts, m) && '=' in part
    ensures LastWins(parts + [part], m[KeyOf(part) := SetOf(part)])
  {
    hide KeyOf, SetOf;
    var all, next := parts + [part], m[KeyOf(part) := SetOf(part)];
    assert all[|parts|] == part;
    forall k
      ensures k in next <==> exists i :: 0 <= i < |all| && KeyOf(all[i]) == k
    {
      if i :| 0 <= i < |parts| && KeyOf(parts[i]) == k {
        assert KeyOf(all[i]) == k;
      }
    }
    forall i | 0 <= i < |all| && IsLast(all, i)
      ensures '=' in all[i] && KeyOf(all[i]) in next && next[KeyOf(all[i])] == SetOf(all[i])
    {
      if i < |parts| {
        assert KeyOf(all[|parts|]) != KeyOf(all[i]);
        forall j | i < j < |parts|
          ensures KeyOf(parts[j]) != KeyOf(parts[i])
        {
          assert KeyOf(all[j]) != KeyOf(all[i]);
        }
      }
    }
  }

  /** Set panics exactly when some part has no "="; what it leaves is in either case settled by the parts before. */
  lemma PanicsExactly(raw: string)
    ensures ParseMap(raw).Err? <==> raw != "" && exists part :: part in Split(raw, ';') && '=' !in part
    ensures raw != "" ==>
              LastWins(Split(raw, ';')[..Readable(Split(raw, ';'))],
                       match ParseMap(raw) case Ok(m) => m case Err(m) => m)
  {
    hide Split, LastWins, Parse;
    var parts := Split(raw, ';');
    var n := Readable(parts);
    AllReadable(parts[..n]);
    if n < |parts| {
      assert parts[n] in parts;
      ParsedOneMore(parts, n);
      PanicIsFinal(parts, n + 1);
    } else {
      assert parts[..n] == parts;
    }
  }

  lemma {:induction false} PanicIsFinal(parts: seq<string>, k: nat)
    requires k <= |parts| && ParseParts(parts[..k]).Err?
    ensures ParseParts(parts) == ParseParts(parts[..k])
    decreases |parts|
  {
    if k == |parts| {
      assert parts[..k] == parts;
    } else {
      assert parts[..|parts| - 1][..k] == parts[..k];
      PanicIsFinal(parts[..|parts| - 1], k);
    }
  }

  // ---- The documented examples.

  lemma NoSeparator(s: string, sep: char)
    requires sep !in s
    ensures Split(s, sep) == [s]
  {
  }

  lemma TwoParts(a: string, b: string, sep: char)
    requires sep !in a && sep !in b
    ensures Split(a + [sep] + b, sep) == [a, b]
  {
    SplitStep(a, b, sep);
    NoSeparator(b, sep);
  }

  /** Two entries of different keys are parsed one by one. */
  lemma EntriesAreParsed(k: string, values: string, l: string, others: string)
    requires '=' !in k && '=' !in l
    requires ';' !in k && ';' !in values && ';' !in l && ';' !in others
    ensures ParseMap(k + "=" + values + ";" + (l + "=" + others)) == Ok(map[k := Parse(values), l := Parse(others)])
  {
    hide Parse, Split, IndexOf;
    var a, b := k + "=" + values, l + "=" + others;
    assert a + ";" + b == a + [';'] + b;
    TwoParts(a, b, ';');
    EntrySplits(k, values);
    EntrySplits(l, others);
    TwoEntries(a, b);
  }

  /** Of foo=a,b;baz= the result is {foo: [a,b], baz: []}. */
  lemma DocumentedMap(raw: string)
    requires raw == "foo" + "=" + "a,b" + ";" + ("baz" + "=" + "")
    ensures ParseMap(raw) == Ok(map["foo" := {"a", "b"}, "baz" := {}])
  {
    hide ParseMap, Parse;
    EntriesAreParsed("foo", "a,b", "baz", "");
    TwoValues();
  }

  lemma TwoValues()
    ensures Parse("a,b") == {"a", "b"} && Parse("") == {}
  {
    TwoParts("a", "b", ',');
    assert "a" + [','] + "b" == "a,b";
    assert Members(["a", "b"]) == {"a", "b"};
  }

  lemma TwoEntries(a: string, b: string)
    requires '=' in a && '=' in b
    ensures ParseParts([a, b]) == Ok(map[KeyOf(a) := SetOf(a), KeyOf(b) := SetOf(b)])
  {
    hide Parse;
    assert [a, b][..1] == [a] && [a][..0] == [];
    assert ParseParts([]) == Ok(map[]);
    assert ParseParts([a]) == Ok(map[KeyOf(a) := SetOf(a)]);
  }

  /** Values are printed in ascending order. */
  lemma PrintsInOrder()
    ensures Render({"b", "a"}) == "a,b"
  {
    assert Less("a", "b");
    assert Members(["a", "b"]) == {"b", "a"};
    ListingIsUnique(["a", "b"], {"b", "a"});
  }
}
