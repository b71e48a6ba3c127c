/**
 * `write_locations` (scripts/make_amsterdam_locations.py): the `LOCATIONS.js` file of one
 * municipality, a JavaScript array of `"<neighbourhood>, <municipality>, <province>,
 * Netherlands"` strings, stored under the province's and the municipality's slugs.
 *
 * The file system is not modelled: the method returns the path components and the text
 * the file would hold. Unicode decomposition (NFKD) is a parameter, as in the slug module.
 */
module Locations {
  import opened Wrappers
  import opened Text
  import opened Slugs
  import opened Json
  import opened MunicipalityIndex

  const FileName: string := "LOCATIONS.js"
  const Header: string := "LOCATIONS = [\n"
  const Footer: string := "]\n"

  /** The file to write: its path below the output root, one component per entry, and its text. */
  datatype LocationsFile = LocationsFile(path: seq<string>, content: string)

  /** `root / province_slug / municipality_slug / "LOCATIONS.js"`, without the root. */
  function LocationsPath(m: Municipality, nfkd: string -> string): (r: seq<string>)
    ensures |r| == 3 && IsSlug(r[0]) && IsSlug(r[1]) && r[2] == FileName
  {
    [SlugifyValue(m.province, nfkd), SlugifyValue(m.name, nfkd), FileName]
  }

  /** The location string of one neighbourhood. */
  function LocationLine(neighbourhood: string, m: Municipality): string {
    neighbourhood + ", " + m.name + ", " + m.province + ", Netherlands"
  }

  /** The location strings of a municipality, in the order of its neighbourhoods. */
  function LocationLines(m: Municipality): (r: seq<string>)
    ensures |r| == |m.neighbourhoods|
    ensures forall i :: 0 <= i < |r| ==> r[i] == LocationLine(m.neighbourhoods[i], m)
  {
    seq(|m.neighbourhoods|, i requires 0 <= i < |m.neighbourhoods| => LocationLine(m.neighbourhoods[i], m))
  }

  /** The line written for entry `idx`: indented, quoted, a comma unless it is the last. */
  function EntryText(lines: seq<string>, idx: nat): string
    requires idx < |lines|
  {
    "  " + JsonQuote(lines[idx]) + (if idx + 1 < |lines| then "," else "") + "\n"
  }

  function EntryTexts(lines: seq<string>): (r: seq<string>)
    ensures |r| == |lines|
    ensures forall i :: 0 <= i < |r| ==> r[i] == EntryText(lines, i)
  {
    seq(|lines|, i requires 0 <= i < |lines| => EntryText(lines, i))
  }

  /** The whole text of the file for `lines`. */
  function Render(lines: seq<string>): string {
    Header + Concat(EntryTexts(lines)) + Footer
  }

  /**
   * Reads the entries of a file after its header: each is two spaces, a JSON string, a
   * comma exactly when another entry follows, and a newline; then the closing `]` line
   * ends the text.
   */
  function ReadEntries(t: string): Option<seq<string>>
    decreases |t|
  {
    if t == Footer then Some([])
    else if !("  \"" <= t) then None
    else
      match ScanBody(t[3..])
      case None => None
      case Some((s, rest)) =>
        if rest == "\n" + Footer then Some([s])
        else if ",\n" <= rest then
          match ReadEntries(rest[2..])
          case Some(more) => if more != [] then Some([s] + more) else None
          case None => None
        else None
  }

  /** The location strings held by the text of a `LOCATIONS.js` file, if it has that layout. */
  function ReadLocations(content: string): Option<seq<string>> {
    if Header <= content then ReadEntries(content[|Header|..]) else None
  }

  /**
   * `write_locations(root, municipality)`: nothing for a municipality without
   * neighbourhoods; otherwise the file under the two slugs, written line by line, which
   * reads back as the municipality's location strings.
   */
  method WriteLocations(m: Municipality, nfkd: string -> string) returns (r: Option<LocationsFile>)
    ensures r.None? <==> m.neighbourhoods == []
    ensures r.Some? ==> r.value.path == LocationsPath(m, nfkd)
    ensures r.Some? ==> r.value.content == Render(LocationLines(m))
    ensures r.Some? ==> ReadLocations(r.value.content) == Some(LocationLines(m))
  {
    if m.neighbourhoods == [] {
      return None;
    }
    var provinceSlug := SlugifyValue(m.province, nfkd);
    var municipalitySlug := SlugifyValue(m.name, nfkd);
    var content := Header;
    var idx := 0;
    while idx < |m.neighbourhoods|
      invariant 0 <= idx <= |m.neighbourhoods|
      invariant content == Written(m, idx)
    {
      var location := m.neighbourhoods[idx] + ", " + m.name + ", " + m.province + ", Netherlands";
      var comma := if idx + 1 < |m.neighbourhoods| then "," else "";
      var entry := "  " + JsonQuote(location) + comma + "\n";
      WrittenStep(m, idx, entry);
      content := content + entry;
      idx := idx + 1;
    }
    WrittenAll(m);
    content := content + Footer;
    RenderReads(LocationLines(m));
    r := Some(LocationsFile([provinceSlug, municipalitySlug, FileName], content));
  }

  /** The text written once the first `idx` neighbourhoods are done. */
  function Written(m: Municipality, idx: nat): string
    requires idx <= |m.neighbourhoods|
  {
    Header + Concat(EntryTexts(LocationLines(m))[..idx])
  }

  lemma WrittenStep(m: Municipality, idx: nat, entry: string)
    requires idx < |m.neighbourhoods|
    requires entry == "  " + JsonQuote(LocationLine(m.neighbourhoods[idx], m))
                      + (if idx + 1 < |m.neighbourhoods| then "," else "") + "\n"
    ensures Written(m, idx + 1) == Written(m, idx) + entry
  {
    var texts := EntryTexts(LocationLines(m));
    ConcatSnoc(texts, idx);
    assert texts[idx] == entry;
  }

  lemma WrittenAll(m: Municipality)
    ensures Written(m, |m.neighbourhoods|) + Footer == Render(LocationLines(m))
  {
    var texts := EntryTexts(LocationLines(m));
    assert texts[..|m.neighbourhoods|] == texts;
  }

  lemma ConcatSnoc(texts: seq<string>, i: nat)
    requires i < |texts|
    ensures Concat(texts[..i + 1]) == Concat(texts[..i]) + texts[i]
  {
    ConcatAppend(texts[..i], [texts[i]]);
    assert texts[..i + 1] == texts[..i] + [texts[i]];
  }

  lemma {:induction false} ConcatAppend(a: seq<string>, b: seq<string>)
    ensures Concat(a + b) == Concat(a) + Concat(b)
    decreases |a|
  {
    if a == [] {
      assert a + b == b;
    } else {
      ConcatAppend(a[1..], b);
      assert (a + b)[1..] == a[1..] + b;
    }
  }

  /** An indented JSON string reads back as the string, whatever follows it. */
  lemma ScanQuoted(s: string, tail: string)
    ensures var t := "  " + JsonQuote(s) + tail;
            "  \"" <= t && ScanBody(t[3..]) == Some((s, tail))
  {
    var body := EscapeChars(s) + "\"" + tail;
    var t := "  " + JsonQuote(s) + tail;
    assert t == "  \"" + body;
    AfterPrefix("  \"", body);
    ScanEscaped(s, tail);
  }

  /** An entry line with its comma, read in front of whatever follows it. */
  lemma ReadCommaEntry(lines: seq<string>, k: nat, after: string)
    requires k + 1 < |lines|
    ensures var t := EntryText(lines, k) + after;
            "  \"" <= t && ScanBody(t[3..]) == Some((lines[k], ",\n" + after))
  {
    assert EntryText(lines, k) + after == "  " + JsonQuote(lines[k]) + (",\n" + after);
    ScanQuoted(lines[k], ",\n" + after);
  }

  /** The last entry line, read in front of whatever follows it. */
  lemma ReadLastLine(lines: seq<string>, k: nat, after: string)
    requires k + 1 == |lines|
    ensures var t := EntryText(lines, k) + after;
            "  \"" <= t && ScanBody(t[3..]) == Some((lines[k], "\n" + after))
  {
    assert EntryText(lines, k) + after == "  " + JsonQuote(lines[k]) + ("\n" + after);
    ScanQuoted(lines[k], "\n" + after);
  }

  lemma ConcatFrom(texts: seq<string>, k: nat, end: string)
    requires k < |texts|
    ensures Concat(texts[k..]) + end == texts[k] + (Concat(texts[k + 1..]) + end)
  {
    assert texts[k..][1..] == texts[k + 1..];
  }

  lemma ReadLastEntry(t: string, s: string)
    requires "  \"" <= t && ScanBody(t[3..]) == Some((s, "\n" + Footer))
    ensures ReadEntries(t) == Some([s])
  {
  }

  lemma ReadNextEntry(t: string, s: string, after: string, more: seq<string>)
    requires "  \"" <= t && ScanBody(t[3..]) == Some((s, ",\n" + after))
    requires ReadEntries(after) == Some(more) && more != []
    ensures ReadEntries(t) == Some([s] + more)
  {
    assert (",\n" + after)[2..] == after;
  }

  /** The entries from `k` on read back as the lines from `k` on. */
  lemma {:induction false} ReadEntriesFrom(lines: seq<string>, k: nat)
    requires k <= |lines|
    ensures ReadEntries(Concat(EntryTexts(lines)[k..]) + Footer) == Some(lines[k..])
    decreases |lines| - k
  {
    if k == |lines| {
      var texts := EntryTexts(lines);
      assert texts[k..] == [] && lines[k..] == [];
      assert Concat(texts[k..]) + Footer == Footer;
    } else if k + 1 < |lines| {
      ReadEntriesFrom(lines, k + 1);
      ReadInnerEntry(lines, k);
    } else {
      ReadFinalEntry(lines, k);
    }
  }

  /** An entry followed by more entries that read back reads back in front of them. */
  lemma ReadInnerEntry(lines: seq<string>, k: nat)
    requires k + 1 < |lines|
    requires ReadEntries(Concat(EntryTexts(lines)[k + 1..]) + Footer) == Some(lines[k + 1..])
    ensures ReadEntries(Concat(EntryTexts(lines)[k..]) + Footer) == Some(lines[k..])
  {
    var texts := EntryTexts(lines);
    var after := Concat(texts[k + 1..]) + Footer;
    var t := EntryText(lines, k) + after;
    ConcatFrom(texts, k, Footer);
    ReadCommaEntry(lines, k, after);
    ReadNextEntry(t, lines[k], after, lines[k + 1..]);
    assert lines[k..] == [lines[k]] + lines[k + 1..];
  }

  /** The last entry, followed by the closing line, reads back alone. */
  lemma ReadFinalEntry(lines: seq<string>, k: nat)
    requires k + 1 == |lines|
    ensures ReadEntries(Concat(EntryTexts(lines)[k..]) + Footer) == Some(lines[k..])
  {
    var texts := EntryTexts(lines);
    var after := Concat(texts[k + 1..]) + Footer;
    var t := EntryText(lines, k) + after;
    ConcatFrom(texts, k, Footer);
    assert texts[k + 1..] == [];
    assert after == Footer;
    ReadLastLine(lines, k, after);
    ReadLastEntry(t, lines[k]);
    assert lines[k..] == [lines[k]];
  }

  /** Reading the rendered text of a list gives the list back. */
  lemma RenderReads(lines: seq<string>)
    ensures ReadLocations(Render(lines)) == Some(lines)
  {
    var texts := EntryTexts(lines);
    var body := Concat(texts) + Footer;
    ReadEntriesFrom(lines, 0);
    assert texts[0..] == texts && lines[0..] == lines;
    assert Render(lines) == Header + body;
    AfterPrefix(Header, body);
  }

  lemma AfterPrefix(h: string, body: string)
    ensures h <= h + body && (h + body)[|h|..] == body
  {
  }

  predicate AsciiText(c: char) {
    Printable(c) || c == '\n'
  }

  lemma AllWeaken(s: string)
    requires All(s, Printable)
    ensures All(s, AsciiText)
  {
  }

  lemma {:induction false} ConcatAll(parts: seq<string>)
    requires forall i :: 0 <= i < |parts| ==> All(parts[i], AsciiText)
    ensures All(Concat(parts), AsciiText)
    decreases |parts|
  {
    if parts != [] {
      ConcatAll(parts[1..]);
      AllAppend(parts[0], Concat(parts[1..]), AsciiText);
    }
  }

  /**
   * The file is plain ASCII: `json.dumps` escapes every other character, so whatever
   * the names hold, each character of the text is printable ASCII or a newline.
   */
  lemma RenderIsAscii(lines: seq<string>)
    ensures All(Render(lines), AsciiText)
  {
    var texts := EntryTexts(lines);
    forall i | 0 <= i < |texts|
      ensures All(texts[i], AsciiText)
    {
      var comma := if i + 1 < |lines| then "," else "";
      JsonQuotePrintable(lines[i]);
      AllWeaken(JsonQuote(lines[i]));
      AllAppend("  ", JsonQuote(lines[i]), AsciiText);
      AllAppend("  " + JsonQuote(lines[i]), comma, AsciiText);
      AllAppend("  " + JsonQuote(lines[i]) + comma, "\n", AsciiText);
    }
    ConcatAll(texts);
    AllAppend(Header, Concat(texts), AsciiText);
    AllAppend(Header + Concat(texts), Footer, AsciiText);
  }
}
