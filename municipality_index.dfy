/**
 * `build_municipality_index` (scripts/make_amsterdam_locations.py): the municipalities of
 * the CBS neighbourhood dataset, each with its province and its sorted neighbourhoods.
 *
 * Three things the function reaches outside itself for are parameters: the province
 * mapping (the outcome of `load_municipality_provinces`), the order in which Python
 * iterates over a set of strings, and `str.casefold`.
 */
module MunicipalityIndex {
  import opened Wrappers
  import opened Text
  import opened Collections
  import opened Provinces

  /** One record of the dataset; a missing or `null` field is `None`. */
  datatype CbsRow = CbsRow(key: Option<string>, title: Option<string>, municipality: Option<string>)

  datatype Municipality = Municipality(code: string, name: string, province: string, neighbourhoods: seq<string>)

  datatype IndexError =
    | LoadFailed(cause: LoadError)
    | MissingProvinces(names: seq<string>)

  function IndexErrorMessage(e: IndexError): string {
    match e
    case LoadFailed(cause) => ErrorMessage(cause)
    case MissingProvinces(names) => "Missing province mapping for: " + Join(names, ", ")
  }

  /** `(item.get(field) or "").strip()`. */
  function FieldText(field: Option<string>): string {
    if field.Some? then Strip(field.value) else ""
  }

  predicate IsMunicipalityKey(key: string) {
    "GM" <= key
  }

  predicate IsNeighbourhoodKey(key: string) {
    "BU" <= key
  }

  /** `muni_names[key] = title` for a municipality record (whatever its title). */
  function MuniEntry(item: CbsRow): Option<(string, string)> {
    var key := FieldText(item.key);
    if IsMunicipalityKey(key) then Some((key, FieldText(item.title))) else None
  }

  /** `neighbourhoods[municipality_code].add(title)` for a neighbourhood record with both fields. */
  function NeighbourhoodEntry(item: CbsRow): Option<(string, string)> {
    var key := FieldText(item.key);
    var title := FieldText(item.title);
    var code := FieldText(item.municipality);
    if !IsMunicipalityKey(key) && IsNeighbourhoodKey(key) && code != [] && title != [] then Some((code, title))
    else None
  }

  function MuniEntries(items: seq<CbsRow>): seq<Option<(string, string)>> {
    seq(|items|, i requires 0 <= i < |items| => MuniEntry(items[i]))
  }

  /** `muni_names` after the first loop: code to name. */
  function MuniNames(items: seq<CbsRow>): map<string, string> {
    LastWins(MuniEntries(items))
  }

  /** `neighbourhoods.get(code, set())`. */
  function Lookup(groups: map<string, set<string>>, code: string): set<string> {
    if code in groups then groups[code] else {}
  }

  /** `neighbourhoods` after the first loop: municipality code to the set of titles. */
  function Grouped(items: seq<CbsRow>): map<string, set<string>>
    decreases |items|
  {
    if items == [] then map[]
    else
      var prev := Grouped(items[..|items| - 1]);
      match NeighbourhoodEntry(items[|items| - 1])
      case None => prev
      case Some((code, title)) => prev[code := Lookup(prev, code) + {title}]
  }

  /** The three fallback spellings, as the set literal builds them. */
  function Variants(name: string): set<string> {
    {ReplaceAll(name, " ('s-Gravenhage)", ""), ReplaceAll(name, "Gemeente ", ""), ReplaceAll(name, "-", " ")}
  }

  /** `order` lists the elements of every set once each. */
  ghost predicate EnumeratesSets(order: set<string> -> seq<string>) {
    forall s :: multiset(order(s)) == multiset(s)
  }

  /** The first of `order` that `mapping` has, the `if var in municipality_to_province` filter. */
  function FirstPresent(order: seq<string>, mapping: map<string, string>): (r: Option<string>)
    ensures r.Some? ==> r.value in mapping
    decreases |order|
  {
    if order == [] then None
    else if order[0] in mapping then Some(order[0])
    else FirstPresent(order[1..], mapping)
  }

  /**
   * The province chosen for `name`: the mapping's entry if it is non-empty; otherwise the
   * entry of the first fallback spelling, in iteration order, that the mapping has, if
   * that entry is non-empty; otherwise none.
   */
  function Resolve(mapping: map<string, string>, name: string, order: seq<string>): Option<string> {
    if name in mapping && mapping[name] != [] then Some(mapping[name])
    else
      match FirstPresent(order, mapping)
      case Some(v) => if mapping[v] != [] then Some(mapping[v]) else None
      case None => None
  }

  /** The province chosen for the municipality with code `code`. */
  function ProvinceOf(names: map<string, string>, mapping: map<string, string>, setOrder: set<string> -> seq<string>, code: string): Option<string>
    requires code in names
  {
    Resolve(mapping, names[code], setOrder(Variants(names[code])))
  }

  /** The municipality codes without a province. */
  ghost function Unresolved(items: seq<CbsRow>, mapping: map<string, string>, setOrder: set<string> -> seq<string>): set<string> {
    var names := MuniNames(items);
    set c | c in names && ProvinceOf(names, mapping, setOrder, c).None?
  }

  /** The codes in `codes` whose name is `n`. */
  ghost function CodesNamed(codes: set<string>, names: map<string, string>, n: string): set<string> {
    set c | c in codes && c in names && names[c] == n
  }

  /** `listed` holds the names of the distinct codes `codes`, in the same order. */
  ghost predicate NamesOfCodes(listed: seq<string>, codes: seq<string>, names: map<string, string>) {
    && |listed| == |codes|
    && (forall i :: 0 <= i < |codes| ==> codes[i] in names && listed[i] == names[codes[i]])
    && (forall i, j :: 0 <= i < j < |codes| ==> codes[i] != codes[j])
  }

  /** What the index holds for `code`. */
  ghost predicate IndexEntry(names: map<string, string>, groups: map<string, set<string>>, mapping: map<string, string>,
                             setOrder: set<string> -> seq<string>, caseFold: string -> string, code: string, m: Municipality)
  {
    && code in names
    && m.code == code
    && m.name == names[code]
    && ProvinceOf(names, mapping, setOrder, code) == Some(m.province)
    && SortedBy(m.neighbourhoods, caseFold)
    && multiset(m.neighbourhoods) == multiset(Lookup(groups, code))
  }

  /** The first loop: municipality names and neighbourhood titles by code. */
  method CollectRecords(items: seq<CbsRow>) returns (muniNames: map<string, string>, groups: map<string, set<string>>)
    ensures muniNames == MuniNames(items) && groups == Grouped(items)
  {
    muniNames := map[];
    groups := map[];
    var i := 0;
    while i < |items|
      invariant 0 <= i <= |items|
      invariant muniNames == LastWins(MuniEntries(items)[..i])
      invariant groups == Grouped(items[..i])
    {
      LastWinsSnoc(MuniEntries(items), i);
      GroupedSnoc(items, i);
      var item := items[i];
      var key := FieldText(item.key);
      var title := FieldText(item.title);
      var code := FieldText(item.municipality);
      if IsMunicipalityKey(key) {
        muniNames := muniNames[key := title];
      } else if IsNeighbourhoodKey(key) && code != [] {
        if title != [] {
          groups := groups[code := Lookup(groups, code) + {title}];
        }
      }
      i := i + 1;
    }
    assert MuniEntries(items)[..|items|] == MuniEntries(items);
    assert items[..|items|] == items;
  }

  /** One more record, as the loop handles it. */
  lemma GroupedSnoc(items: seq<CbsRow>, i: nat)
    requires i < |items|
    ensures Grouped(items[..i + 1]) ==
              match NeighbourhoodEntry(items[i])
              case None => Grouped(items[..i])
              case Some((code, title)) => Grouped(items[..i])[code := Lookup(Grouped(items[..i]), code) + {title}]
  {
    assert items[..i + 1][..i] == items[..i];
  }

  /** `sorted(titles, key=str.casefold)`, the titles coming out of the set in any order. */
  method SortedTitles(titles: set<string>, caseFold: string -> string) returns (r: seq<string>)
    ensures SortedBy(r, caseFold) && multiset(r) == multiset(titles)
  {
    var listed := SetToSeq(titles);
    r := SortBy(listed, caseFold);
  }

  /** The second loop, over the municipality codes in sorted order. */
  method ResolveCodes(codes: seq<string>, names: map<string, string>, groups: map<string, set<string>>,
                      mapping: map<string, string>, setOrder: set<string> -> seq<string>, caseFold: string -> string)
    returns (result: map<string, Municipality>, unresolved: seq<string>, ghost missed: seq<string>)
    requires forall i :: 0 <= i < |codes| ==> codes[i] in names
    requires forall i, j :: 0 <= i < j < |codes| ==> codes[i] != codes[j]
    ensures forall c :: c in missed <==> c in codes && ProvinceOf(names, mapping, setOrder, c).None?
    ensures forall c :: c in result <==> c in codes && ProvinceOf(names, mapping, setOrder, c).Some?
    ensures forall c :: c in result ==> IndexEntry(names, groups, mapping, setOrder, caseFold, c, result[c])
    ensures NamesOfCodes(unresolved, missed, names)
  {
    result := map[];
    unresolved := [];
    missed := [];
    var k := 0;
    while k < |codes|
      invariant 0 <= k <= |codes|
      invariant forall c :: c in missed <==> c in codes[..k] && ProvinceOf(names, mapping, setOrder, c).None?
      invariant forall c :: c in result <==> c in codes[..k] && ProvinceOf(names, mapping, setOrder, c).Some?
      invariant forall c :: c in result ==> IndexEntry(names, groups, mapping, setOrder, caseFold, c, result[c])
      invariant NamesOfCodes(unresolved, missed, names)
    {
      var code := codes[k];
      var name := names[code];
      var province := ProvinceOf(names, mapping, setOrder, code);
      NextCode(codes, k);
      if province.None? {
        unresolved := unresolved + [name];
        missed := missed + [code];
      } else {
        var neighbourhoods := SortedTitles(Lookup(groups, code), caseFold);
        result := result[code := Municipality(code, name, province.value, neighbourhoods)];
      }
      k := k + 1;
    }
    assert codes[..|codes|] == codes;
  }

  /** The codes seen after one more pass: the next one is new. */
  lemma NextCode(codes: seq<string>, k: nat)
    requires k < |codes| && forall i, j :: 0 <= i < j < |codes| ==> codes[i] != codes[j]
    ensures forall c :: c in codes[..k + 1] <==> c in codes[..k] || c == codes[k]
    ensures codes[k] !in codes[..k]
  {
    assert codes[..k + 1] == codes[..k] + [codes[k]];
  }

  /** The municipality codes, in the order `sorted(muni_names.items())` visits them. */
  method SortedCodes(names: map<string, string>) returns (codes: seq<string>)
    ensures forall c :: c in codes <==> c in names
    ensures forall i, j :: 0 <= i < j < |codes| ==> codes[i] != codes[j]
    ensures SortedBy(codes, Identity)
  {
    var listed := SetToSeq(names.Keys);
    codes := SortBy(listed, Identity);
    DistinctFromSet(codes, names.Keys);
    forall c
      ensures c in codes <==> c in names
    {
      assert c in codes <==> c in multiset(codes);
    }
  }

  /**
   * `build_municipality_index`: stops with the province loader's error if it fails; else
   * either every municipality gets a province, or the run stops naming, in sorted order
   * and once per code, every municipality that has none.
   */
  method BuildMunicipalityIndex(items: seq<CbsRow>, provinces: Result<map<string, string>, LoadError>,
                                setOrder: set<string> -> seq<string>, caseFold: string -> string)
    returns (r: Result<map<string, Municipality>, IndexError>)
    requires EnumeratesSets(setOrder)
    ensures provinces.Failure? ==> r == Failure(LoadFailed(provinces.error))
    ensures provinces.Success? ==> (r.Success? <==> Unresolved(items, provinces.value, setOrder) == {})
    ensures r.Success? ==>
              && provinces.Success?
              && r.value.Keys == MuniNames(items).Keys
              && forall c :: c in r.value ==>
                   IndexEntry(MuniNames(items), Grouped(items), provinces.value, setOrder, caseFold, c, r.value[c])
    ensures provinces.Success? && r.Failure? ==>
              var u := Unresolved(items, provinces.value, setOrder);
              && r.error.MissingProvinces?
              && SortedBy(r.error.names, Identity)
              && |r.error.names| == |u|
              && forall n :: multiset(r.error.names)[n] == |CodesNamed(u, MuniNames(items), n)|
  {
    var muniNames, groups := CollectRecords(items);
    if provinces.Failure? {
      return Failure(LoadFailed(provinces.error));
    }
    var mapping := provinces.value;
    var codes := SortedCodes(muniNames);
    var result, unresolved, missed := ResolveCodes(codes, muniNames, groups, mapping, setOrder, caseFold);
    ghost var u := Unresolved(items, mapping, setOrder);
    assert u == Elements(missed);
    NameCounts(unresolved, missed, muniNames);
    if unresolved != [] {
      var names := SortBy(unresolved, Identity);
      assert |names| == |multiset(names)| == |multiset(unresolved)| == |unresolved|;
      return Failure(MissingProvinces(names));
    }
    assert u == {};
    assert result.Keys == muniNames.Keys;
    return Success(result);
  }

  /**
   * The names of distinct codes, listed once per code: each name occurs as often as
   * there are codes with that name, so nothing is deduplicated.
   */
  lemma {:induction false} NameCounts(listed: seq<string>, codes: seq<string>, names: map<string, string>)
    requires NamesOfCodes(listed, codes, names)
    ensures |listed| == |Elements(codes)|
    ensures forall n :: multiset(listed)[n] == |CodesNamed(Elements(codes), names, n)|
    decreases |codes|
  {
    var all := Elements(codes);
    if codes == [] {
      assert all == {};
      forall n
        ensures multiset(listed)[n] == |CodesNamed(all, names, n)|
      {
        assert CodesNamed(all, names, n) == {};
      }
    } else {
      var m := |codes| - 1;
      var x := codes[m];
      LastCode(listed, codes, names);
      NameCounts(listed[..m], codes[..m], names);
      NamedCountGrows(Elements(codes[..m]), names, x);
    }
  }

  /** Splitting off the last code: the rest still lists names of distinct codes, without it. */
  lemma LastCode(listed: seq<string>, codes: seq<string>, names: map<string, string>)
    requires NamesOfCodes(listed, codes, names) && codes != []
    ensures var m := |codes| - 1;
            && NamesOfCodes(listed[..m], codes[..m], names)
            && codes[m] !in Elements(codes[..m]) && codes[m] in names
            && Elements(codes) == Elements(codes[..m]) + {codes[m]}
            && multiset(listed) == multiset(listed[..m]) + multiset{names[codes[m]]}
  {
    var m := |codes| - 1;
    assert codes == codes[..m] + [codes[m]];
    assert listed == listed[..m] + [names[codes[m]]];
  }

  /** Adding a code not yet counted, with name `names[x]`, raises that name's count by one. */
  lemma NamedCountGrows(codes: set<string>, names: map<string, string>, x: string)
    requires x !in codes && x in names
    ensures |codes + {x}| == |codes| + 1
    ensures forall n :: |CodesNamed(codes + {x}, names, n)| ==
                        |CodesNamed(codes, names, n)| + (if n == names[x] then 1 else 0)
  {
    forall n
      ensures |CodesNamed(codes + {x}, names, n)| == |CodesNamed(codes, names, n)| + (if n == names[x] then 1 else 0)
    {
      if n == names[x] {
        assert CodesNamed(codes + {x}, names, n) == CodesNamed(codes, names, n) + {x};
      } else {
        assert CodesNamed(codes + {x}, names, n) == CodesNamed(codes, names, n);
      }
    }
  }

  /**
   * A code is a municipality exactly when some record with that key starts with `GM`,
   * whatever its title (an empty title is recorded too); its name is the title of the
   * last such record.
   */
  lemma MuniNamesMeaning(items: seq<CbsRow>, c: string)
    ensures c in MuniNames(items) <==>
              exists i :: 0 <= i < |items| && IsMunicipalityKey(FieldText(items[i].key)) && FieldText(items[i].key) == c
    ensures c in MuniNames(items) ==>
              exists i :: && 0 <= i < |items| && IsMunicipalityKey(FieldText(items[i].key)) && FieldText(items[i].key) == c
                          && MuniNames(items)[c] == FieldText(items[i].title)
                          && forall j :: i < j < |items| ==> !(IsMunicipalityKey(FieldText(items[j].key)) && FieldText(items[j].key) == c)
  {
    var entries := MuniEntries(items);
    LastWinsMeaning(entries, c);
    forall i | 0 <= i < |items|
      ensures Writes(entries, i, c) <==> IsMunicipalityKey(FieldText(items[i].key)) && FieldText(items[i].key) == c
    {
    }
  }

  /** The titles one record adds to the group of `code`. */
  function Added(item: CbsRow, code: string): set<string> {
    match NeighbourhoodEntry(item)
    case Some((c, t)) => if c == code then {t} else {}
    case None => {}
  }

  lemma GroupedStep(items: seq<CbsRow>, code: string)
    requires items != []
    ensures Lookup(Grouped(items), code) ==
            Lookup(Grouped(items[..|items| - 1]), code) + Added(items[|items| - 1], code)
  {
  }

  /** Every grouped title comes from a neighbourhood record of that code. */
  lemma {:induction false} GroupedSound(items: seq<CbsRow>, code: string, t: string)
    requires t in Lookup(Grouped(items), code)
    ensures exists i :: 0 <= i < |items| && NeighbourhoodEntry(items[i]) == Some((code, t))
    decreases |items|
  {
    var m := |items| - 1;
    var front := items[..m];
    GroupedStep(items, code);
    if t in Lookup(Grouped(front), code) {
      GroupedSound(front, code, t);
      var i :| 0 <= i < |front| && NeighbourhoodEntry(front[i]) == Some((code, t));
      assert front[i] == items[i];
    } else {
      assert NeighbourhoodEntry(items[m]) == Some((code, t));
    }
  }

  /** Every neighbourhood record of a code puts its title in that code's group. */
  lemma {:induction false} GroupedComplete(items: seq<CbsRow>, code: string, t: string, i: nat)
    requires i < |items| && t in Added(items[i], code)
    ensures t in Lookup(Grouped(items), code)
    decreases |items|, 1
  {
    GroupedStep(items, code);
    if i < |items| - 1 {
      GroupedCompleteFront(items, code, t, i);
    }
  }

  lemma {:induction false} GroupedCompleteFront(items: seq<CbsRow>, code: string, t: string, i: nat)
    requires i < |items| - 1 && t in Added(items[i], code)
    ensures t in Lookup(Grouped(items[..|items| - 1]), code)
    decreases |items|, 0
  {
    var front := items[..|items| - 1];
    assert front[i] == items[i];
    GroupedComplete(front, code, t, i);
  }

  lemma AddedOf(item: CbsRow, code: string, t: string)
    requires NeighbourhoodEntry(item) == Some((code, t))
    ensures Added(item, code) == {t}
  {
  }

  /**
   * The neighbourhoods of a code are exactly the titles of the records whose key starts
   * with `BU` (and not `GM`), whose `Municipality` field is that code, and whose title is
   * not empty; a title listed twice is kept once.
   */
  lemma GroupedMeaning(items: seq<CbsRow>, code: string, t: string)
    ensures t in Lookup(Grouped(items), code) <==>
              exists i :: 0 <= i < |items| && NeighbourhoodEntry(items[i]) == Some((code, t))
  {
    if t in Lookup(Grouped(items), code) {
      GroupedSound(items, code, t);
    }
    if exists i :: 0 <= i < |items| && NeighbourhoodEntry(items[i]) == Some((code, t)) {
      var i :| 0 <= i < |items| && NeighbourhoodEntry(items[i]) == Some((code, t));
      AddedOf(items[i], code, t);
      GroupedComplete(items, code, t, i);
    }
  }

  lemma {:induction false} FirstPresentMeaning(order: seq<string>, mapping: map<string, string>)
    ensures FirstPresent(order, mapping).Some? ==> FirstPresent(order, mapping).value in order
    ensures FirstPresent(order, mapping).None? <==> forall i :: 0 <= i < |order| ==> order[i] !in mapping
    decreases |order|
  {
    if order != [] {
      FirstPresentMeaning(order[1..], mapping);
      assert forall i :: 1 <= i < |order| ==> order[i] == order[1..][i - 1];
    }
  }

  /**
   * What `Resolve` may pick: a non-empty province, and either the mapping's entry for the
   * name itself, which wins whenever it is non-empty, or the entry for one of the fallback
   * spellings.
   */
  lemma ResolveSound(mapping: map<string, string>, name: string, order: seq<string>)
    requires multiset(order) == multiset(Variants(name))
    ensures var r := Resolve(mapping, name, order);
            && (name in mapping && mapping[name] != [] ==> r == Some(mapping[name]))
            && (r.Some? ==>
                  && r.value != []
                  && ((name in mapping && mapping[name] == r.value)
                      || exists v :: v in Variants(name) && v in mapping && mapping[v] == r.value))
  {
    FirstPresentMeaning(order, mapping);
    var first := FirstPresent(order, mapping);
    if first.Some? {
      assert first.value in multiset(order);
    }
  }

  /**
   * With a mapping whose provinces are all non-empty (as the loaded mapping's are), a name
   * stays unresolved exactly when neither it nor any fallback spelling is in the mapping,
   * whatever order the fallbacks are tried in.
   */
  lemma ResolveNoneIff(mapping: map<string, string>, name: string, order: seq<string>)
    requires multiset(order) == multiset(Variants(name))
    requires forall k :: k in mapping ==> mapping[k] != []
    ensures Resolve(mapping, name, order).None? <==>
              name !in mapping && forall v :: v in Variants(name) ==> v !in mapping
  {
    FirstPresentMeaning(order, mapping);
    forall v | v in Variants(name)
      ensures v in order
    {
      assert v in multiset(order);
    }
    forall i | 0 <= i < |order|
      ensures order[i] in Variants(name)
    {
      assert order[i] in multiset(order);
    }
  }

  /** Which municipalities end up without a province does not depend on the set iteration order. */
  lemma UnresolvedOrderFree(items: seq<CbsRow>, mapping: map<string, string>,
                            order1: set<string> -> seq<string>, order2: set<string> -> seq<string>)
    requires EnumeratesSets(order1) && EnumeratesSets(order2)
    requires forall k :: k in mapping ==> mapping[k] != []
    ensures Unresolved(items, mapping, order1) == Unresolved(items, mapping, order2)
  {
    var names := MuniNames(items);
    forall c | c in names
      ensures ProvinceOf(names, mapping, order1, c).None? <==> ProvinceOf(names, mapping, order2, c).None?
    {
      ResolveNoneIff(mapping, names[c], order1(Variants(names[c])));
      ResolveNoneIff(mapping, names[c], order2(Variants(names[c])));
    }
  }

  /** The loaded province mapping has no empty province, so the index outcome is order-free. */
  lemma LoadedMappingOrderFree(tables: seq<WikiTables.Table>, items: seq<CbsRow>,
                               order1: set<string> -> seq<string>, order2: set<string> -> seq<string>)
    requires EnumeratesSets(order1) && EnumeratesSets(order2)
    requires ProvinceMapping(tables).Success?
    ensures Unresolved(items, ProvinceMapping(tables).value, order1) ==
            Unresolved(items, ProvinceMapping(tables).value, order2)
  {
    MappingValuesCanonical(tables);
    UnresolvedOrderFree(items, ProvinceMapping(tables).value, order1, order2);
  }

  /** The hyphen spelling has no hyphen left. */
  lemma HyphenVariantHasNoHyphen(name: string)
    ensures '-' !in ReplaceAll(name, "-", " ")
  {
    ReplaceCharGone(name, '-', " ");
  }
}
