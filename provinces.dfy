/**
 * `load_municipality_provinces` (scripts/make_amsterdam_locations.py) after the page has
 * been fetched and parsed: the municipality-to-province mapping read from the first
 * table that has a `Gemeente` heading, with the English province names and the manual
 * overrides for municipalities that are no longer listed.
 */
module Provinces {
  import opened Wrappers
  import opened Text
  import opened Collections
  import opened CellText
  import opened WikiTables

  /** `PROVINCE_NAME_REMAP`: Dutch province labels to folder names. */
  const ProvinceNameRemap: map<string, string> := map[
    "Noord-Brabant" := "North Brabant",
    "Noord Brabant" := "North Brabant",
    "Noord-Holland" := "North Holland",
    "Noord Holland" := "North Holland",
    "Zuid-Holland" := "South Holland",
    "Zuid Holland" := "South Holland",
    "Frysl\U{00E2}n" := "Friesland",
    "Friesland" := "Friesland",
    "Caribisch Nederland" := "Caribbean Netherlands"
  ]

  /** `MUNICIPALITY_OVERRIDES`: provinces of municipalities the page no longer lists. */
  const MunicipalityOverrides: map<string, string> := map[
    "Appingedam" := "Groningen",
    "Beemster" := "North Holland",
    "Bergen (L.)" := "Limburg",
    "Bergen (NH.)" := "North Holland",
    "Boxmeer" := "North Brabant",
    "Brielle" := "South Holland",
    "Cuijk" := "North Brabant",
    "Dantumadiel" := "Friesland",
    "De Fryske Marren" := "Friesland",
    "Delfzijl" := "Groningen",
    "Haaren" := "North Brabant",
    "Grave" := "North Brabant",
    "Heerhugowaard" := "North Holland",
    "Hellevoetsluis" := "South Holland",
    "Landerd" := "North Brabant",
    "Langedijk" := "North Holland",
    "Loppersum" := "Groningen",
    "Mill en Sint Hubert" := "North Brabant",
    "Nuenen, Gerwen en Nederwetten" := "North Brabant",
    "Sint Anthonis" := "North Brabant",
    "Tytsjerksteradiel" := "Friesland",
    "Uden" := "North Brabant",
    "Weesp" := "North Holland",
    "Westvoorne" := "South Holland",
    "'s-Gravenhage" := "South Holland",
    "Bergen (NH)" := "North Holland"
  ]

  /** The two ways the page can fail to yield a mapping (both stop the program). */
  datatype LoadError = NoMunicipalityTable | NoHeaderColumns

  function ErrorMessage(e: LoadError): string {
    match e
    case NoMunicipalityTable => "Could not locate municipality table on Wikipedia page"
    case NoHeaderColumns => "Could not determine header columns in municipality table"
  }

  /** `PROVINCE_NAME_REMAP.get(province, province)`. */
  function Remap(province: string): string {
    if province in ProvinceNameRemap then ProvinceNameRemap[province] else province
  }

  predicate IsMunicipalityHeading(cell: string) {
    Contains(cell, "Gemeente")
  }

  predicate IsProvinceHeading(cell: string) {
    Contains(cell, "Provin")
  }

  /** `any("Gemeente" in cell for cell in row)`. */
  predicate HasGemeenteCell(row: Row) {
    exists i {:trigger IsMunicipalityHeading(row[i])} :: 0 <= i < |row| && IsMunicipalityHeading(row[i])
  }

  predicate HasHeaderRow(table: Table) {
    exists j :: 0 <= j < |table| && HasGemeenteCell(table[j])
  }

  /** The first table with a `Gemeente` row, and that row's index in it. */
  function FindHeader(tables: seq<Table>): (r: Option<(nat, nat)>)
    ensures r.Some? ==> r.value.0 < |tables| && r.value.1 < |tables[r.value.0]|
  {
    match FirstIndex(tables, HasHeaderRow)
    case None => None
    case Some(ti) =>
      match FirstIndex(tables[ti], HasGemeenteCell)
      case None => None
      case Some(ri) => Some((ti, ri))
  }

  /** `[_normalize_cell(cell) for cell in header_row]`. */
  function NormalizeRow(row: Row): (r: Row)
    ensures |r| == |row| && forall i :: 0 <= i < |row| ==> r[i] == NormalizeCell(row[i])
  {
    seq(|row|, i requires 0 <= i < |row| => NormalizeCell(row[i]))
  }

  predicate Wide(row: Row, mi: nat, pi: nat) {
    |row| > mi && |row| > pi
  }

  /** What a row other than the header assigns (`mapping[municipality] = province`), if anything. */
  function RowEntry(row: Row, mi: nat, pi: nat): Option<(string, string)> {
    if HasGemeenteCell(row) || !Wide(row, mi, pi) then None
    else
      var municipality := Strip(row[mi]);
      var province := Strip(row[pi]);
      if municipality == [] || province == [] then None
      else Some((municipality, Remap(province)))
  }

  function Entries(table: Table, headerIndex: nat, mi: nat, pi: nat): seq<Option<(string, string)>> {
    seq(|table|, i requires 0 <= i < |table| => if i == headerIndex then None else RowEntry(table[i], mi, pi))
  }

  /** The mapping read from the municipality table, before the overrides. */
  function TableMapping(table: Table, headerIndex: nat, mi: nat, pi: nat): map<string, string> {
    LastWins(Entries(table, headerIndex, mi, pi))
  }

  /** What `load_municipality_provinces` returns, or the error it stops with. */
  function ProvinceMapping(tables: seq<Table>): Result<map<string, string>, LoadError> {
    match FindHeader(tables)
    case None => Failure(NoMunicipalityTable)
    case Some((ti, ri)) =>
      var header := NormalizeRow(tables[ti][ri]);
      match (FirstIndex(header, IsMunicipalityHeading), FirstIndex(header, IsProvinceHeading))
      case (Some(mi), Some(pi)) => Success(TableMapping(tables[ti], ri, mi, pi) + MunicipalityOverrides)
      case _ => Failure(NoHeaderColumns)
  }

  /** The nested search loop with its two `break`s. */
  method FindMunicipalityTable(tables: seq<Table>) returns (r: Option<(nat, nat)>)
    ensures r == FindHeader(tables)
  {
    r := None;
    var ti := 0;
    while ti < |tables|
      invariant 0 <= ti <= |tables|
      invariant forall k :: 0 <= k < ti ==> !HasHeaderRow(tables[k])
      invariant r.None?
    {
      var table := tables[ti];
      var ri := 0;
      while ri < |table|
        invariant 0 <= ri <= |table|
        invariant forall k :: 0 <= k < ri ==> !HasGemeenteCell(table[k])
        invariant r.None?
      {
        if HasGemeenteCell(table[ri]) {
          r := Some((ti, ri));
          break;
        }
        ri := ri + 1;
      }
      if r.Some? {
        assert r == Some((ti, ri)) && HasGemeenteCell(table[ri]);
        assert HasHeaderRow(tables[ti]);
        return;
      }
      assert !HasHeaderRow(table);
      ti := ti + 1;
    }
  }

  /** The loop over the rows of the municipality table. */
  method ReadTableMapping(table: Table, headerIndex: nat, mi: nat, pi: nat) returns (mapping: map<string, string>)
    ensures mapping == TableMapping(table, headerIndex, mi, pi)
  {
    ghost var entries := Entries(table, headerIndex, mi, pi);
    mapping := map[];
    var i := 0;
    while i < |table|
      invariant 0 <= i <= |table|
      invariant mapping == LastWins(entries[..i])
    {
      ReadStep(table, headerIndex, mi, pi, i);
      var row := table[i];
      if i != headerIndex && !HasGemeenteCell(row) && Wide(row, mi, pi) {
        var municipality := Strip(row[mi]);
        var province := Strip(row[pi]);
        if municipality != [] && province != [] {
          province := Remap(province);
          mapping := mapping[municipality := province];
        }
      }
      i := i + 1;
    }
    assert entries[..|table|] == entries;
  }

  /** One pass of the row loop: the row's assignment, if it makes one, extends the mapping. */
  lemma ReadStep(table: Table, headerIndex: nat, mi: nat, pi: nat, i: nat)
    requires i < |table|
    ensures var entries := Entries(table, headerIndex, mi, pi);
            var row := table[i];
            LastWins(entries[..i + 1]) ==
              if i != headerIndex && !HasGemeenteCell(row) && Wide(row, mi, pi)
                 && Strip(row[mi]) != [] && Strip(row[pi]) != []
              then LastWins(entries[..i])[Strip(row[mi]) := Remap(Strip(row[pi]))]
              else LastWins(entries[..i])
  {
    var entries := Entries(table, headerIndex, mi, pi);
    LastWinsSnoc(entries, i);
    assert entries[i] == if i == headerIndex then None else RowEntry(table[i], mi, pi);
  }

  /** `load_municipality_provinces` on the tables the parser collected. */
  method LoadMunicipalityProvinces(tables: seq<Table>) returns (r: Result<map<string, string>, LoadError>)
    ensures r == ProvinceMapping(tables)
  {
    var found := FindMunicipalityTable(tables);
    if found.None? {
      return Failure(NoMunicipalityTable);
    }
    var (ti, headerIndex) := found.value;
    var table := tables[ti];
    var header := NormalizeRow(table[headerIndex]);
    var municipalityIdx := FirstIndex(header, IsMunicipalityHeading);
    var provinceIdx := FirstIndex(header, IsProvinceHeading);
    if municipalityIdx.None? || provinceIdx.None? {
      return Failure(NoHeaderColumns);
    }
    var mapping := ReadTableMapping(table, headerIndex, municipalityIdx.value, provinceIdx.value);
    mapping := mapping + MunicipalityOverrides;
    return Success(mapping);
  }

  /** The load fails for want of a table exactly when no row of any table has a `Gemeente` cell. */
  lemma NoTableIffNoGemeenteRow(tables: seq<Table>)
    ensures ProvinceMapping(tables) == Failure(NoMunicipalityTable) <==>
            forall k, j :: 0 <= k < |tables| && 0 <= j < |tables[k]| ==> !HasGemeenteCell(tables[k][j])
  {
  }

  /**
   * Once the table is found, the load fails exactly when its normalised header row lacks a
   * `Gemeente` or a `Provin` column; otherwise the overrides are laid over the table mapping.
   */
  lemma HeaderColumnsDecide(tables: seq<Table>, ti: nat, ri: nat)
    requires FindHeader(tables) == Some((ti, ri))
    ensures var header := NormalizeRow(tables[ti][ri]);
            var mi := FirstIndex(header, IsMunicipalityHeading);
            var pi := FirstIndex(header, IsProvinceHeading);
            && (ProvinceMapping(tables) == Failure(NoHeaderColumns) <==>
                  (forall i :: 0 <= i < |header| ==> !IsMunicipalityHeading(header[i]))
                  || (forall i :: 0 <= i < |header| ==> !IsProvinceHeading(header[i])))
            && (mi.Some? && pi.Some? ==>
                  ProvinceMapping(tables) == Success(TableMapping(tables[ti], ri, mi.value, pi.value) + MunicipalityOverrides))
  {
  }

  /** The header row is the first `Gemeente` row of the first table that has one. */
  lemma FindHeaderIsFirst(tables: seq<Table>, ti: nat, ri: nat)
    requires FindHeader(tables) == Some((ti, ri))
    ensures HasGemeenteCell(tables[ti][ri])
    ensures forall k, j :: 0 <= k < ti && 0 <= j < |tables[k]| ==> !HasGemeenteCell(tables[k][j])
    ensures forall j :: 0 <= j < ri ==> !HasGemeenteCell(tables[ti][j])
  {
  }

  /** `mapping.update(MUNICIPALITY_OVERRIDES)`: every override is present and wins over the table. */
  lemma OverridesWin(tables: seq<Table>)
    requires ProvinceMapping(tables).Success?
    ensures var m := ProvinceMapping(tables).value;
            forall k :: k in MunicipalityOverrides ==> k in m && m[k] == MunicipalityOverrides[k]
  {
  }

  /**
   * A municipality of the table mapping as overlaid with `overrides`, where it is not
   * overridden, comes from a row of the table (not the header, no `Gemeente` cell, wide
   * enough, both cells non-empty after stripping) with its province remapped, and from the
   * last such row naming it.
   */
  lemma TableRowsDecide(table: Table, ri: nat, mi: nat, pi: nat, overrides: map<string, string>, k: string)
    requires k in TableMapping(table, ri, mi, pi) + overrides && k !in overrides
    ensures var m := TableMapping(table, ri, mi, pi) + overrides;
            exists i :: 0 <= i < |table| && i != ri
                        && RowEntry(table[i], mi, pi) == Some((k, m[k]))
                        && forall j :: i < j < |table| && j != ri ==> RowEntry(table[j], mi, pi).None? || RowEntry(table[j], mi, pi).value.0 != k
  {
    var entries := Entries(table, ri, mi, pi);
    var t := LastWins(entries);
    assert (t + overrides)[k] == t[k];
    LastWinsMeaning(entries, k);
    var i :| Writes(entries, i, k) && entries[i].value.1 == t[k]
             && forall j :: i < j < |entries| ==> !Writes(entries, j, k);
    LaterRowsSkip(table, ri, mi, pi, k, i);
  }

  /** The entry `i` is the row's own, and no later row writes `k` when no later entry does. */
  lemma LaterRowsSkip(table: Table, ri: nat, mi: nat, pi: nat, k: string, i: nat)
    requires var entries := Entries(table, ri, mi, pi);
             && Writes(entries, i, k)
             && forall j :: i < j < |entries| ==> !Writes(entries, j, k)
    ensures i < |table| && i != ri && Entries(table, ri, mi, pi)[i] == RowEntry(table[i], mi, pi)
    ensures forall j :: i < j < |table| && j != ri ==> RowEntry(table[j], mi, pi).None? || RowEntry(table[j], mi, pi).value.0 != k
  {
    var entries := Entries(table, ri, mi, pi);
    forall j | i < j < |table| && j != ri
      ensures RowEntry(table[j], mi, pi).None? || RowEntry(table[j], mi, pi).value.0 != k
    {
      assert entries[j] == RowEntry(table[j], mi, pi);
      assert !Writes(entries, j, k);
    }
  }

  /** Every value of the table mapping is a remapped non-empty label. */
  lemma TableValuesRemapped(table: Table, ri: nat, mi: nat, pi: nat)
    ensures var m := TableMapping(table, ri, mi, pi);
            forall k :: k in m ==> exists p: string :: p != [] && m[k] == Remap(p)
  {
    var entries := Entries(table, ri, mi, pi);
    var m := LastWins(entries);
    forall k | k in m
      ensures exists p: string :: p != [] && m[k] == Remap(p)
    {
      LastWinsMeaning(entries, k);
      var i :| Writes(entries, i, k) && entries[i].value.1 == m[k];
      EntryRemapped(table, ri, mi, pi, i);
    }
  }

  lemma EntryRemapped(table: Table, ri: nat, mi: nat, pi: nat, i: nat)
    requires i < |table| && Entries(table, ri, mi, pi)[i].Some?
    ensures var p := Strip(table[i][pi]);
            p != [] && Entries(table, ri, mi, pi)[i].value.1 == Remap(p)
  {
  }

  /** Remapping yields a non-empty name for a non-empty label, and a remapped name stays as it is. */
  lemma RemapCanonical(p: string)
    requires p != []
    ensures Remap(p) != [] && Remap(Remap(p)) == Remap(p)
  {
  }

  lemma OverrideValuesCanonical()
    ensures forall k :: k in MunicipalityOverrides ==>
              MunicipalityOverrides[k] != [] && Remap(MunicipalityOverrides[k]) == MunicipalityOverrides[k]
  {
    var provinces := {"Groningen", "North Holland", "Limburg", "North Brabant", "South Holland", "Friesland"};
    assert forall k :: k in MunicipalityOverrides ==> MunicipalityOverrides[k] in provinces;
    forall p | p in provinces
      ensures p != [] && Remap(p) == p
    {
    }
  }

  /** Every province in the mapping is a non-empty name that the remap table leaves alone. */
  lemma MappingValuesCanonical(tables: seq<Table>)
    requires ProvinceMapping(tables).Success?
    ensures var m := ProvinceMapping(tables).value;
            forall k :: k in m ==> m[k] != [] && Remap(m[k]) == m[k]
  {
    var (ti, ri) := FindHeader(tables).value;
    var header := NormalizeRow(tables[ti][ri]);
    var mi := FirstIndex(header, IsMunicipalityHeading).value;
    var pi := FirstIndex(header, IsProvinceHeading).value;
    var t := TableMapping(tables[ti], ri, mi, pi);
    HeaderColumnsDecide(tables, ti, ri);
    assert ProvinceMapping(tables).value == t + MunicipalityOverrides;
    OverrideValuesCanonical();
    TableValuesRemapped(tables[ti], ri, mi, pi);
    UnionCanonical(t, MunicipalityOverrides);
  }

  lemma UnionCanonical(t: map<string, string>, o: map<string, string>)
    requires forall k :: k in t ==> exists p: string :: p != [] && t[k] == Remap(p)
    requires forall k :: k in o ==> o[k] != [] && Remap(o[k]) == o[k]
    ensures forall k :: k in t + o ==> (t + o)[k] != [] && Remap((t + o)[k]) == (t + o)[k]
  {
    forall k | k in t + o
      ensures (t + o)[k] != [] && Remap((t + o)[k]) == (t + o)[k]
    {
      if k !in o {
        var p: string :| p != [] && t[k] == Remap(p);
        RemapCanonical(p);
      }
    }
  }

  /**
   * On the parser's output, normalising the header row changes nothing, so a `Gemeente`
   * column is always found: the header-column failure means that no heading names a province.
   */
  lemma ParsedHeaderUnchanged(events: seq<Event>)
    ensures var tables := Run(Initial, events).tables;
            FindHeader(tables).Some? ==>
              var (ti, ri) := FindHeader(tables).value;
              && NormalizeRow(tables[ti][ri]) == tables[ti][ri]
              && (ProvinceMapping(tables) == Failure(NoHeaderColumns) <==>
                    forall i :: 0 <= i < |tables[ti][ri]| ==> !IsProvinceHeading(tables[ti][ri][i]))
  {
    var tables := Run(Initial, events).tables;
    if FindHeader(tables).Some? {
      var (ti, ri) := FindHeader(tables).value;
      var row := tables[ti][ri];
      ParsedRowClean(events, ti, ri);
      forall i | 0 <= i < |row|
        ensures NormalizeCell(row[i]) == row[i]
      {
        NormalizeCellFixpoint(row[i]);
      }
      assert NormalizeRow(row) == row;
      FindHeaderIsFirst(tables, ti, ri);
      HeaderColumnsDecide(tables, ti, ri);
    }
  }
}
