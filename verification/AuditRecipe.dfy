/** The manifest and its verification in the terms an auditor would use: the bytes
    that are hashed, the numbers that are given, and which page is at fault. */
module AuditRecipe {
  import opened Wrappers
  import opened Strings
  import opened Utf8
  import opened Digits
  import opened AuditChain
  import opened AuditManifest
  import opened AuditVerify
  import opened AuditTheorems

  // ----- The recipe

  /** Each field ended by a line feed. */
  function TextLines(fields: seq<string>): string {
    if fields == [] then "" else fields[0] + "\n" + TextLines(fields[1..])
  }

  function GivenRows(es: seq<PageEntry>): nat {
    if es == [] then 0 else es[0].rows as nat + GivenRows(es[1..])
  }

  predicate LinkRecipe(sha: Bytes -> Digest, e: PageEntry, page: Bytes, number: nat, prev: Digest, next: Digest) {
    && e.page as int == number && e.sha256 == ToHex(sha(page))
    && next == sha(prev + sha(page)) && e.chain == ToHex(next)
  }

  /** The chain values `cs`, recomputed from the header and the raw pages, are the
      ones the manifest spells. */
  ghost predicate ChainRecipe(sha: Bytes -> Digest, m: Manifest, pages: seq<Bytes>, cs: seq<Digest>) {
    && |m.pages| == |pages| && |cs| == |pages| + 1
    && cs[0] == sha(Encode(TextLines(
         ["secureprompt.audit_export.v1", m.exportId, m.workspaceId, m.from, m.to, m.format,
          Decimal(m.pageSize as int)])))
    && m.chainGenesis == ToHex(cs[0]) && m.chainRoot == ToHex(cs[|pages|])
    && forall i :: 0 <= i < |pages| ==> LinkRecipe(sha, m.pages[i], pages[i], i + 1, cs[i], cs[i + 1])
  }

  /** A section runs from page `first` to page `last`, names each of them and counts
      their rows. */
  ghost predicate SectionRecipe(m: Manifest, s: SectionEntry, name: string, first: int, last: int) {
    && s.section == name && s.firstPage as int == first && s.lastPage as int == last
    && 1 <= first <= last <= |m.pages| && s.pages as int == last - first + 1
    && (forall i :: first - 1 <= i < last ==> m.pages[i].section == name)
    && s.rows as int == GivenRows(m.pages[first - 1..last])
  }

  ghost predicate TableRecipe(m: Manifest) {
    && (m.format == "csv" || m.format == "jsonl")
    && |m.pages| == m.totalPages as int <= 0xFFFF_FFFE
    && |m.sections| == 2
    && SectionRecipe(m, m.sections[0], "request_events", 1, m.sections[0].lastPage as int)
    && SectionRecipe(m, m.sections[1], "control_plane_events", m.sections[0].lastPage as int + 1, |m.pages|)
    && m.totalRows as int == GivenRows(m.pages)
  }

  // ----- Row sums

  lemma {:induction false} GivenRowsSnoc(es: seq<PageEntry>, e: PageEntry)
    ensures GivenRows(es + [e]) == GivenRows(es) + e.rows as nat
  {
    if es == [] {
      assert es + [e] == [e];
      assert [e][1..] == [];
    } else {
      assert (es + [e])[1..] == es[1..] + [e];
      GivenRowsSnoc(es[1..], e);
    }
  }

  lemma {:induction false} GivenIsSum(es: seq<PageEntry>)
    ensures GivenRows(es) == SumEntries(es)
  {
    if es != [] {
      var n := |es| - 1;
      GivenIsSum(es[..n]);
      GivenRowsSnoc(es[..n], es[n]);
      assert es == es[..n] + [es[n]];
    }
  }

  // ----- The chain

  lemma LinesCons(f: string, rest: seq<string>)
    ensures TextLines([f] + rest) == f + "\n" + TextLines(rest)
  {
    assert ([f] + rest)[1..] == rest;
  }

  lemma HeaderIsLines(h: Header)
    ensures HeaderText(h) == TextLines(
              ["secureprompt.audit_export.v1", h.exportId, h.workspaceId, h.from, h.to,
               if h.format == ExportFormat.Csv then "csv" else "jsonl", Decimal(h.pageSize as int)])
  {
    hide TextLines, Decimal;
    var size, f := Decimal(h.pageSize as int), if h.format == ExportFormat.Csv then "csv" else "jsonl";
    EndOfLines(size);
    LinesCons(f, [size]);
    LinesCons(h.to, [f] + [size]);
    LinesCons(h.from, [h.to] + ([f] + [size]));
    LinesCons(h.workspaceId, [h.from] + ([h.to] + ([f] + [size])));
    LinesCons(h.exportId, [h.workspaceId] + ([h.from] + ([h.to] + ([f] + [size]))));
    var fields := [h.exportId] + ([h.workspaceId] + ([h.from] + ([h.to] + ([f] + [size]))));
    LinesCons("secureprompt.audit_export.v1", fields);
    assert ["secureprompt.audit_export.v1"] + fields
        == ["secureprompt.audit_export.v1", h.exportId, h.workspaceId, h.from, h.to, f, size];
  }

  lemma EndOfLines(f: string)
    ensures TextLines([f]) == f + "\n"
  {
    assert [f][1..] == [];
    assert TextLines([]) == "";
  }

  lemma SeedIsRecipe(sha: Bytes -> Digest, m: Manifest)
    requires m.format == "csv" || m.format == "jsonl"
    ensures ParseFormat(m.format).Some?
    ensures Genesis(sha, HeaderOf(m)) == sha(Encode(TextLines(
         ["secureprompt.audit_export.v1", m.exportId, m.workspaceId, m.from, m.to, m.format,
          Decimal(m.pageSize as int)])))
  {
    hide HeaderText, TextLines, Encode, Decimal;
    HeaderIsLines(HeaderOf(m));
  }

  function Roots(sha: Bytes -> Digest, h: Header, ds: seq<Digest>): (cs: seq<Digest>)
    ensures |cs| == |ds| + 1 && forall i :: 0 <= i <= |ds| ==> cs[i] == ChainRoot(sha, h, ds[..i])
  {
    seq(|ds| + 1, i requires 0 <= i <= |ds| => ChainRoot(sha, h, ds[..i]))
  }

  lemma NextRoot(sha: Bytes -> Digest, h: Header, ds: seq<Digest>, i: nat)
    requires i < |ds|
    ensures ChainRoot(sha, h, ds[..i + 1]) == sha(ChainRoot(sha, h, ds[..i]) + ds[i])
  {
    ChainSnoc(sha, h, ds, i);
  }

  lemma {:induction false} RecipeIsRoots(sha: Bytes -> Digest, h: Header, pages: seq<Bytes>, cs: seq<Digest>, i: nat)
    requires |cs| == |pages| + 1 && i <= |pages| && cs[0] == Genesis(sha, h)
    requires forall k :: 0 <= k < |pages| ==> cs[k + 1] == sha(cs[k] + sha(pages[k]))
    ensures cs[i] == ChainRoot(sha, h, PageDigests(sha, pages)[..i])
  {
    hide Genesis;
    var ds := PageDigests(sha, pages);
    if i == 0 {
      assert ds[..0] == [];
    } else {
      RecipeIsRoots(sha, h, pages, cs, i - 1);
      NextRoot(sha, h, ds, i - 1);
      assert cs[(i - 1) + 1] == cs[i];
    }
  }

  // What the page and chain checks demand, as the recipe.
  lemma ChecksGiveChain(sha: Bytes -> Digest, m: Manifest, pages: seq<Bytes>) returns (cs: seq<Digest>)
    requires Seeded(sha, m) && PagesOk(sha, m, pages) && ChainOk(sha, m, pages)
    ensures ChainRecipe(sha, m, pages, cs)
  {
    hide Genesis, HeaderText, Encode, Decimal, ToHex, TextLines;
    var h, ds := HeaderOf(m), PageDigests(sha, pages);
    cs := Roots(sha, h, ds);
    SeedIsRecipe(sha, m);
    assert ds[..0] == [] && ds[..|pages|] == ds;
    forall i | 0 <= i < |pages| ensures LinkRecipe(sha, m.pages[i], pages[i], i + 1, cs[i], cs[i + 1]) {
      assert PageOk(sha, m, pages, i) && LinkOk(sha, m, pages, i);
      NextRoot(sha, h, ds, i);
    }
  }

  lemma ChainGivesChecks(sha: Bytes -> Digest, m: Manifest, pages: seq<Bytes>, cs: seq<Digest>)
    requires Sized(m) && ChainRecipe(sha, m, pages, cs)
    ensures Seeded(sha, m) && PagesOk(sha, m, pages) && ChainOk(sha, m, pages)
  {
    hide Genesis, HeaderText, Encode, Decimal, ToHex, TextLines;
    var h, ds := HeaderOf(m), PageDigests(sha, pages);
    SeedIsRecipe(sha, m);
    forall k | 0 <= k < |pages| ensures cs[k + 1] == sha(cs[k] + sha(pages[k])) {
      assert LinkRecipe(sha, m.pages[k], pages[k], k + 1, cs[k], cs[k + 1]);
    }
    forall i | 0 <= i < |pages| ensures PageOk(sha, m, pages, i) && LinkOk(sha, m, pages, i) {
      assert LinkRecipe(sha, m.pages[i], pages[i], i + 1, cs[i], cs[i + 1]);
      RecipeIsRoots(sha, h, pages, cs, i + 1);
    }
    RecipeIsRoots(sha, h, pages, cs, |pages|);
    assert ds[..|pages|] == ds;
  }

  // ----- The section table

  lemma SectionGives(m: Manifest, k: nat, name: string)
    requires k < |m.sections| && m.sections[k].section == name && SectionOk(m, k)
    ensures var s := m.sections[k];
            SectionRecipe(m, s, name, s.firstPage as int, s.lastPage as int)
  {
    var s := m.sections[k];
    GivenIsSum(m.pages[s.firstPage as int - 1..s.lastPage as int]);
    forall i | s.firstPage as int - 1 <= i < s.lastPage as int ensures m.pages[i].section == name {
      assert PageNamed(m, k, i + 1);
    }
  }

  lemma SectionFrom(m: Manifest, k: nat, name: string, first: int, last: int)
    requires k < |m.sections| && SectionRecipe(m, m.sections[k], name, first, last) && first == NextPage(m, k) as int
    ensures SectionOk(m, k)
  {
    GivenIsSum(m.pages[first - 1..last]);
    forall i | first <= i <= last ensures 0 <= i && PageNamed(m, k, i) {
      assert m.pages[i - 1].section == name;
    }
  }

  lemma NamesAre(m: Manifest)
    ensures SectionNamesOk(SectionNames(m)) <==>
              |m.sections| == 2 && m.sections[0].section == "request_events"
              && m.sections[1].section == "control_plane_events"
  {
    var names := SectionNames(m);
    if |m.sections| == 2 {
      assert names == [m.sections[0].section, m.sections[1].section];
    }
    if SectionNamesOk(names) {
      assert names[0] == "request_events" && names[1] == "control_plane_events";
    }
  }

  lemma ChecksGiveTable(sha: Bytes -> Digest, m: Manifest, pages: seq<Bytes>)
    requires Sized(m) && Counted(m, pages) && SectionsOk(m) && SumEntries(m.pages) == m.totalRows as int
    ensures TableRecipe(m)
  {
    CountIsExact(m, pages);
    NamesAre(m);
    assert SectionOk(m, 0) && SectionOk(m, 1);
    SectionGives(m, 0, "request_events");
    SectionGives(m, 1, "control_plane_events");
    GivenIsSum(m.pages);
  }

  lemma TableGivesChecks(m: Manifest)
    requires TableRecipe(m)
    ensures Sized(m) && SectionsOk(m) && SumEntries(m.pages) == m.totalRows as int
  {
    NamesAre(m);
    SectionFrom(m, 0, "request_events", 1, m.sections[0].lastPage as int);
    SectionFrom(m, 1, "control_plane_events", m.sections[0].lastPage as int + 1, |m.pages|);
    GivenIsSum(m.pages);
  }

  /** The verifier's checks pass on exactly the manifests and pages that meet the
      recipe: the chain values recomputed from the raw bytes are the ones spelled,
      and the table adds up. */
  lemma ConsistentIffRecipe(sha: Bytes -> Digest, m: Manifest, pages: seq<Bytes>)
    ensures Consistent(sha, m, pages) <==> TableRecipe(m) && exists cs :: ChainRecipe(sha, m, pages, cs)
  {
    hide ChainRecipe, TableRecipe;
    if Consistent(sha, m, pages) {
      ChecksGiveTable(sha, m, pages);
      var cs := ChecksGiveChain(sha, m, pages);
    }
    if TableRecipe(m) && exists cs :: ChainRecipe(sha, m, pages, cs) {
      var cs :| ChainRecipe(sha, m, pages, cs);
      TableGivesChecks(m);
      ChainGivesChecks(sha, m, pages, cs);
      RecipeCounts(sha, m, pages, cs);
    }
  }

  lemma RecipeCounts(sha: Bytes -> Digest, m: Manifest, pages: seq<Bytes>, cs: seq<Digest>)
    requires TableRecipe(m) && ChainRecipe(sha, m, pages, cs)
    ensures Counted(m, pages)
  {
  }

  // ----- The manifest that is built, over the sections given

  function PagesBefore(sections: seq<SectionInput>, k: nat): nat
    requires k <= |sections|
  {
    if k == 0 then 0 else PagesBefore(sections, k - 1) + |sections[k - 1].pages|
  }

  function Total(rows: seq<u32>): nat {
    if rows == [] then 0 else rows[0] as nat + Total(rows[1..])
  }

  function TotalGiven(sections: seq<SectionInput>): nat {
    if sections == [] then 0 else Total(sections[0].rowsPerPage) + TotalGiven(sections[1..])
  }

  /** The sections' pages, one after the other. */
  function GivenPages(sections: seq<SectionInput>): seq<Bytes> {
    if sections == [] then [] else sections[0].pages + GivenPages(sections[1..])
  }

  lemma {:induction false} PagesBeforeIs(sections: seq<SectionInput>, k: nat)
    requires k <= |sections| && forall s :: s in sections ==> Balanced(s)
    ensures PagesBefore(sections, k) == |AllPages(sections[..k])|
  {
    if k > 0 {
      PagesBeforeIs(sections, k - 1);
      AllPagesSnoc(sections, k - 1);
    }
  }

  lemma PageOfSection(sections: seq<SectionInput>, k: nat, j: nat)
    requires k < |sections| && j < |sections[k].pages| && forall s :: s in sections ==> Balanced(s)
    ensures sections[k] in sections
    ensures var at := PagesBefore(sections, k) + j;
            && at < |AllPages(sections)|
            && AllPages(sections)[at]
               == PageInput(sections[k].section, sections[k].rowsPerPage[j], sections[k].pages[j])
  {
    assert sections[k] in sections;
    PagesBeforeIs(sections, k);
    PagesBeforeIs(sections, k + 1);
    SectionSlice(sections, k);
    var a, b := PagesBefore(sections, k), PagesBefore(sections, k + 1);
    assert AllPages(sections)[a..b][j] == SectionPages(sections[k])[j];
  }

  lemma {:induction false} TotalSnoc(rows: seq<u32>, r: u32)
    ensures Total(rows + [r]) == Total(rows) + r as nat
  {
    if rows == [] {
      assert rows + [r] == [r];
      assert [r][1..] == [];
    } else {
      assert (rows + [r])[1..] == rows[1..] + [r];
      TotalSnoc(rows[1..], r);
    }
  }

  lemma {:induction false} SectionRowsAre(s: SectionInput, n: nat)
    requires Balanced(s) && n <= |s.pages|
    ensures SumRows(SectionPages(s)[..n]) == Total(s.rowsPerPage[..n])
  {
    var ps := SectionPages(s);
    if n > 0 {
      SectionRowsAre(s, n - 1);
      assert ps[..n][..n - 1] == ps[..n - 1];
      assert ps[n - 1].rows == s.rowsPerPage[n - 1];
      assert s.rowsPerPage[..n] == s.rowsPerPage[..n - 1] + [s.rowsPerPage[n - 1]];
      TotalSnoc(s.rowsPerPage[..n - 1], s.rowsPerPage[n - 1]);
    }
  }

  lemma {:induction false} SumConcat(a: seq<PageInput>, b: seq<PageInput>)
    ensures SumRows(a + b) == SumRows(a) + SumRows(b)
  {
    if b == [] {
      assert a + b == a;
    } else {
      var n := |b| - 1;
      assert (a + b)[..|a + b| - 1] == a + b[..n];
      SumConcat(a, b[..n]);
    }
  }

  lemma AllPagesLast(sections: seq<SectionInput>)
    requires sections != [] && forall s :: s in sections ==> Balanced(s)
    ensures var n := |sections| - 1;
            sections[n] in sections && AllPages(sections) == AllPages(sections[..n]) + SectionPages(sections[n])
  {
  }

  lemma {:induction false} AllPagesCons(sections: seq<SectionInput>)
    requires sections != [] && forall s :: s in sections ==> Balanced(s)
    ensures AllPages(sections) == SectionPages(sections[0]) + AllPages(sections[1..])
  {
    hide AllPages, SectionPages;
    var n := |sections| - 1;
    AllPagesLast(sections);
    if n == 0 {
      assert sections[..0] == [] && sections[1..] == [];
      NoPages();
    } else {
      var front, back := sections[..n], sections[1..];
      AllPagesCons(front);
      AllPagesLast(back);
      assert front[0] == sections[0] && front[1..] == back[..n - 1] && back[n - 1] == sections[n];
      Assoc(SectionPages(sections[0]), AllPages(back[..n - 1]), SectionPages(sections[n]));
    }
  }

  lemma NoPages()
    ensures AllPages([]) == []
  {
  }

  lemma {:induction false} AllRowsAre(sections: seq<SectionInput>)
    requires forall s :: s in sections ==> Balanced(s)
    ensures SumRows(AllPages(sections)) == TotalGiven(sections)
  {
    if sections != [] {
      AllPagesCons(sections);
      AllRowsAre(sections[1..]);
      var s := sections[0];
      SumConcat(SectionPages(s), AllPages(sections[1..]));
      SectionRowsAre(s, |s.pages|);
      assert SectionPages(s)[..|s.pages|] == SectionPages(s) && s.rowsPerPage[..|s.pages|] == s.rowsPerPage;
    }
  }

  lemma BytesConcat(a: seq<PageInput>, b: seq<PageInput>)
    ensures PageBytes(a + b) == PageBytes(a) + PageBytes(b)
  {
  }

  lemma SectionBytes(s: SectionInput)
    requires Balanced(s)
    ensures PageBytes(SectionPages(s)) == s.pages
  {
  }

  /** What is submitted for verification is the sections' pages, concatenated. */
  lemma {:induction false} SubmittedPagesAreGiven(sections: seq<SectionInput>)
    requires forall s :: s in sections ==> Balanced(s)
    ensures PageBytes(AllPages(sections)) == GivenPages(sections)
  {
    hide AllPages, SectionPages;
    if sections == [] {
      NoPages();
    } else {
      AllPagesCons(sections);
      SubmittedPagesAreGiven(sections[1..]);
      SectionBytes(sections[0]);
      BytesConcat(SectionPages(sections[0]), AllPages(sections[1..]));
    }
  }

  /** The entry of page `j` of a section: its number, its section, its rows and its digest. */
  ghost predicate Tabulated(sha: Bytes -> Digest, m: Manifest, s: SectionInput, before: nat, j: nat)
    requires j < |s.pages| == |s.rowsPerPage|
  {
    && before + j < |m.pages|
    && var e := m.pages[before + j];
       && e.page as int == before + j + 1 && e.section == s.section
       && e.rows == s.rowsPerPage[j] && e.sha256 == ToHex(sha(s.pages[j]))
  }

  ghost predicate SectionTabulated(e: SectionEntry, s: SectionInput, before: nat) {
    && e.section == s.section && e.notes == s.notes && e.pages as int == |s.pages|
    && e.firstPage as int == before + 1 && e.lastPage as int == before + |s.pages|
    && e.rows as int == Total(s.rowsPerPage)
  }

  // The entry at a position, from the page there.
  lemma EntryOfPage(sha: Bytes -> Digest, seed: Digest, pages: seq<PageInput>, at: nat)
    requires at < |pages| <= 0xFFFF_FFFE
    ensures var e := Entries(sha, seed, pages)[at];
            && e.page as int == at + 1 && e.section == pages[at].section && e.rows == pages[at].rows
            && e.sha256 == ToHex(sha(pages[at].bytes))
  {
    hide ToHex, ChainAfter, DigestsOf;
    assert Entries(sha, seed, pages)[at] == EntryAt(sha, seed, pages, at);
  }

  lemma {:induction false} EntryIsTabulated(
    sha: Bytes -> Digest, h: Header, notes: ManifestNotes, sections: seq<SectionInput>, k: nat, j: nat)
    requires (forall s :: s in sections ==> Balanced(s)) && |AllPages(sections)| <= 0xFFFF_FFFE
    requires k < |sections| && j < |sections[k].pages|
    ensures sections[k] in sections
    ensures Tabulated(sha, ManifestOf(sha, h, notes, sections), sections[k], PagesBefore(sections, k), j)
  {
    hide AllPages, PagesBefore, Entries, SectionEntries, ToHex, Genesis, ChainRoot, DigestsOf, SumRows;
    PageOfSection(sections, k, j);
    EntryOfPage(sha, Genesis(sha, h), AllPages(sections), PagesBefore(sections, k) + j);
  }

  lemma SectionIsTabulated(sha: Bytes -> Digest, h: Header, notes: ManifestNotes, sections: seq<SectionInput>, k: nat)
    requires (forall s :: s in sections ==> Balanced(s) && s.pages != []) && |AllPages(sections)| <= 0xFFFF_FFFE
    requires k < |sections|
    ensures SectionTabulated(ManifestOf(sha, h, notes, sections).sections[k], sections[k], PagesBefore(sections, k))
  {
    hide ToHex, Genesis, ChainRoot, ChainAfter, SumRows, Total;
    var s := sections[k];
    assert s in sections;
    PagesBeforeIs(sections, k);
    PagesBeforeIs(sections, k + 1);
    AllPagesPrefix(sections, k + 1);
    SectionRowsAre(s, |s.pages|);
    assert SectionPages(s)[..|s.pages|] == SectionPages(s) && s.rowsPerPage[..|s.pages|] == s.rowsPerPage;
    WrapIsExact(SectionPages(s));
    assert SectionEntries(sections)[k] == SectionEntryAt(sections, k);
  }

  /** The manifest lists exactly what the sections give: every page in order with its
      own rows and digest, every section with its range and row sum, and the totals. */
  lemma ManifestTabulates(sha: Bytes -> Digest, h: Header, notes: ManifestNotes, sections: seq<SectionInput>)
    requires InputFault(sections).None? && PagesBefore(sections, |sections|) <= 0xFFFF_FFFE
    ensures forall s :: s in sections ==> |s.pages| == |s.rowsPerPage|
    ensures var m := ManifestOf(sha, h, notes, sections);
            && |m.pages| == m.totalPages as int == PagesBefore(sections, |sections|)
            && m.totalRows as int == TotalGiven(sections)
            && |m.sections| == |sections|
            && (forall k :: 0 <= k < |sections| ==>
                  SectionTabulated(m.sections[k], sections[k], PagesBefore(sections, k)))
            && (forall k, j :: 0 <= k < |sections| && 0 <= j < |sections[k].pages| ==>
                  sections[k] in sections && Tabulated(sha, m, sections[k], PagesBefore(sections, k), j))
  {
    hide ToHex, Genesis, ChainRoot, ChainAfter;
    var m := ManifestOf(sha, h, notes, sections);
    var n := |sections|;
    assert sections[..n] == sections;
    PagesBeforeIs(sections, n);
    AllRowsAre(sections);
    WrapIsExact(AllPages(sections));
    forall k | 0 <= k < n ensures SectionTabulated(m.sections[k], sections[k], PagesBefore(sections, k)) {
      SectionIsTabulated(sha, h, notes, sections, k);
    }
    forall k, j | 0 <= k < n && 0 <= j < |sections[k].pages|
      ensures sections[k] in sections && Tabulated(sha, m, sections[k], PagesBefore(sections, k), j)
    {
      EntryIsTabulated(sha, h, notes, sections, k, j);
    }
  }

  /** The manifest repeats the header and the notes it was given. */
  lemma ManifestRepeatsHeader(sha: Bytes -> Digest, h: Header, notes: ManifestNotes, sections: seq<SectionInput>)
    requires InputFault(sections).None?
    ensures var m := ManifestOf(sha, h, notes, sections);
            && m.schemaVersion == 2 && m.exportId == h.exportId && m.workspaceId == h.workspaceId
            && m.from == h.from && m.to == h.to && m.pageSize == h.pageSize && m.notes == notes
            && m.format == (if h.format == ExportFormat.Csv then "csv" else "jsonl")
  {
  }

  /** Which fault a build reports: the sections must be the two planes in order; then
      the first section that is unbalanced or empty decides. */
  lemma InputFaultIs(sections: seq<SectionInput>)
    ensures var planes := |sections| == 2 && sections[0].section == "request_events"
                          && sections[1].section == "control_plane_events";
            && (InputFault(sections) == Some(SectionSetUnexpected) <==> !planes)
            && (planes ==>
                  InputFault(sections)
                  == if |sections[0].pages| != |sections[0].rowsPerPage| then Some(PageRowCountMismatch)
                     else if sections[0].pages == [] then Some(EmptySection)
                     else if |sections[1].pages| != |sections[1].rowsPerPage| then Some(PageRowCountMismatch)
                     else if sections[1].pages == [] then Some(EmptySection)
                     else None)
  {
    var names := InputNames(sections);
    if |sections| == 2 {
      assert names == [sections[0].section, sections[1].section];
      assert sections[1..][1..] == [];
      assert sections[1..][0] == sections[1];
    }
    if SectionNamesOk(names) {
      assert names[0] == "request_events" && names[1] == "control_plane_events";
    }
    NoSetFault(sections);
  }

  lemma {:induction false} NoSetFault(sections: seq<SectionInput>)
    ensures ShapeFault(sections) != Some(SectionSetUnexpected)
  {
    if sections != [] {
      NoSetFault(sections[1..]);
    }
  }

  // ----- Building, then verifying

  /** Every export that is built, serialized and signed is accepted by the
      verifier, up to exactly 2^32 - 2 pages; from 2^32 - 1 on it is rejected. */
  lemma BuiltExportVerifies(
    p: Primitives, key: SigningKey, h: Header, notes: ManifestNotes, sections: seq<SectionInput>, x: Submission)
    requires Lawful(p) && InputFault(sections).None?
    requires p.serialize(ManifestOf(p.sha, h, notes, sections)) == Some(x.manifestJson)
    requires x.signature == p.encodeSignature(p.sign(key, Encode(x.manifestJson)))
    requires x.publicKey == p.encodeKey(p.publicKey(key))
    requires x.pages == GivenPages(sections)
    ensures (exists m :: Accepts(p, x, m)) <==> |GivenPages(sections)| <= 0xFFFF_FFFE
    ensures forall m :: Accepts(p, x, m) ==> m == ManifestOf(p.sha, h, notes, sections)
  {
    var m := ManifestOf(p.sha, h, notes, sections);
    SubmittedPagesAreGiven(sections);
    SignedDecodes(p, key, m, x);
    if |GivenPages(sections)| <= 0xFFFF_FFFE {
      SmallBuildIsConsistent(p.sha, h, notes, sections);
      assert Accepts(p, x, m);
    } else if n :| Accepts(p, x, n) {
      ConsistentIsSmall(p.sha, n, x.pages);
    }
  }

  /** Build, then verify what was built: it passes exactly up to 2^32 - 2 pages, and
      gives the manifest back. */
  method BuildThenVerify(p: Primitives, key: SigningKey, h: Header, notes: ManifestNotes, sections: seq<SectionInput>)
    returns (built: Result<SignedExport, BuildError>, verdict: Option<Result<Manifest, VerifyError>>)
    ensures verdict.Some? <==> built.Ok?
    ensures built.Ok? ==> InputFault(sections).None?
    ensures Lawful(p) && built.Ok? ==>
              && (verdict.value.Ok? <==> |GivenPages(sections)| <= 0xFFFF_FFFE)
              && (verdict.value.Ok? ==> verdict.value.value == ManifestOf(p.sha, h, notes, sections))
  {
    built := BuildExport(p, key, h, notes, sections);
    if built.Err? {
      return built, None;
    }
    var x := Submission(built.value.manifestJson, built.value.signature, built.value.publicKey, GivenPages(sections));
    var r := VerifyExport(p, x);
    if Lawful(p) {
      BuiltExportVerifies(p, key, h, notes, sections, x);
    }
    return built, Some(r);
  }

  // ----- Which part is at fault

  /** Of an accepted export with other pages in place, the answer names the first
      page that differs, or that page collides with the original. */
  lemma TamperedPageIsNamed(p: Primitives, x: Submission, m: Manifest, pages: seq<Bytes>, i: nat, e: VerifyError)
    requires Accepts(p, x, m) && |pages| == |x.pages| && i < |pages|
    requires pages[i] != x.pages[i] && forall j :: 0 <= j < i ==> pages[j] == x.pages[j]
    requires Fault(p, x.(pages := pages), e)
    ensures e == PageDigestMismatch((i + 1) as u32) || Collision(p.sha, pages[i], x.pages[i])
  {
    CountIsExact(m, x.pages);
    TamperedPages(p.sha, m, x.pages, pages, i, e);
  }

  lemma TamperedPages(
    sha: Bytes -> Digest, m: Manifest, original: seq<Bytes>, pages: seq<Bytes>, i: nat, e: VerifyError)
    requires Consistent(sha, m, original) && |pages| == |original| == |m.pages| <= 0xFFFF_FFFE && i < |pages|
    requires pages[i] != original[i] && forall j :: 0 <= j < i ==> pages[j] == original[j]
    requires ContentFault(sha, m, pages, e)
    ensures e == PageDigestMismatch((i + 1) as u32) || Collision(sha, pages[i], original[i])
  {
    hide ChainOk, ChainFault, SectionsFault, Genesis, SumEntries, SectionOk;
    assert PageOk(sha, m, original, i);
    forall j | 0 <= j < i ensures PageOk(sha, m, pages, j) {
      assert PageOk(sha, m, original, j);
    }
    if sha(pages[i]) != sha(original[i]) {
      if ToHex(sha(pages[i])) == ToHex(sha(original[i])) {
        ToHexInjective(sha(pages[i]), sha(original[i]));
      }
      assert FirstBadPage(sha, m, pages, i);
      assert !PageOk(sha, m, pages, i) && !PagesOk(sha, m, pages);
      assert PagesFault(sha, m, pages, PageDigestMismatch(m.pages[i].page));
      PagesFaultUnique(sha, m, pages, e, PageDigestMismatch(m.pages[i].page));
    }
  }

  /** Of an accepted export with pages missing or added, the answer is the count that
      was promised and the count that came. */
  lemma MissingPagesAreCounted(p: Primitives, x: Submission, m: Manifest, pages: seq<Bytes>, e: VerifyError)
    requires Accepts(p, x, m) && |pages| != |x.pages| && Fault(p, x.(pages := pages), e)
    ensures e == PageCountMismatch(m.totalPages, if |pages| <= 0xFFFF_FFFF then |pages| as u32 else 0xFFFF_FFFF)
    ensures m.totalPages as int == |x.pages|
  {
    CountIsExact(m, x.pages);
  }
}
