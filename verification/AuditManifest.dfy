/** Building the manifest of a two-plane audit export. */
module AuditManifest {
  import opened Wrappers
  import opened Utf8
  import opened Digits
  import opened AuditChain
  import opened Folding

  const U32_MAX: u32 := 0xFFFF_FFFF
  const SCHEMA_VERSION: u32 := 2
  const REQUIRED_SECTIONS := ["request_events", "control_plane_events"]

  datatype PageEntry = PageEntry(page: u32, section: string, rows: u32, sha256: string, chain: string)

  // The descriptive fields of a section, copied through verbatim.
  datatype SectionNotes = SectionNotes(
    plane: string,
    description: string,
    columns: seq<(string, string)>,
    coverage: string,
    sources: seq<string>)

  datatype SectionEntry = SectionEntry(
    section: string,
    firstPage: u32,
    lastPage: u32,
    pages: u32,
    rows: u64,
    notes: SectionNotes)

  datatype SectionInput = SectionInput(
    section: string,
    notes: SectionNotes,
    pages: seq<Bytes>,
    rowsPerPage: seq<u32>)

  datatype ManifestNotes = ManifestNotes(
    interpretation: string,
    coverage: string,
    signingKeyId: string,
    generatedAt: string,
    verification: string)

  datatype Manifest = Manifest(
    schemaVersion: u32,
    exportId: UuidText,
    workspaceId: UuidText,
    from: InstantText,
    to: InstantText,
    format: string,
    pageSize: u32,
    totalRows: u64,
    totalPages: u32,
    chainGenesis: string,
    chainRoot: string,
    sections: seq<SectionEntry>,
    pages: seq<PageEntry>,
    notes: ManifestNotes)

  datatype BuildError = PageRowCountMismatch | EmptySection | SectionSetUnexpected | ManifestSerialization

  // ----- The machine integers of the source

  function SatU32(n: nat): u32 {
    if n < 0x1_0000_0000 then n as u32 else U32_MAX
  }

  function SatSucc(n: u32): u32 {
    if n < U32_MAX then n + 1 else U32_MAX
  }

  function SatSub(a: u32, b: u32): u32 {
    if b <= a then a - b else 0
  }

  function Wrap64(n: nat): u64 {
    (n % 0x1_0000_0000_0000_0000) as u64
  }

  // ----- What the manifest of a list of sections is

  datatype PageInput = PageInput(section: string, rows: u32, bytes: Bytes)

  predicate Balanced(s: SectionInput) {
    |s.pages| == |s.rowsPerPage|
  }

  function SectionPages(s: SectionInput): (ps: seq<PageInput>)
    requires Balanced(s)
    ensures |ps| == |s.pages|
  {
    seq(|s.pages|, i requires 0 <= i < |s.pages| => PageInput(s.section, s.rowsPerPage[i], s.pages[i]))
  }

  /** All pages of all sections, in export order. */
  function AllPages(sections: seq<SectionInput>): seq<PageInput>
    requires forall s :: s in sections ==> Balanced(s)
  {
    if sections == [] then []
    else
      var n := |sections| - 1;
      AllPages(sections[..n]) + SectionPages(sections[n])
  }

  function DigestsOf(sha: Bytes -> Digest, pages: seq<PageInput>): (ds: seq<Digest>)
    ensures |ds| == |pages| && forall i :: 0 <= i < |pages| ==> ds[i] == sha(pages[i].bytes)
  {
    if pages == [] then []
    else
      var n := |pages| - 1;
      DigestsOf(sha, pages[..n]) + [sha(pages[n].bytes)]
  }

  function EntryAt(sha: Bytes -> Digest, seed: Digest, pages: seq<PageInput>, i: nat): PageEntry
    requires i < |pages|
  {
    PageEntry(
      SatSucc(SatU32(i)), pages[i].section, pages[i].rows,
      ToHex(sha(pages[i].bytes)), ToHex(ChainAfter(sha, seed, DigestsOf(sha, pages)[..i + 1])))
  }

  function Entries(sha: Bytes -> Digest, seed: Digest, pages: seq<PageInput>): (es: seq<PageEntry>)
    ensures |es| == |pages|
  {
    seq(|pages|, i requires 0 <= i < |pages| => EntryAt(sha, seed, pages, i))
  }

  function SumRows(pages: seq<PageInput>): nat {
    if pages == [] then 0
    else
      var n := |pages| - 1;
      SumRows(pages[..n]) + pages[n].rows as nat
  }

  function SectionEntryAt(sections: seq<SectionInput>, k: nat): SectionEntry
    requires k < |sections| && forall s :: s in sections ==> Balanced(s)
  {
    var input := sections[k];
    var first := SatSucc(SatU32(|AllPages(sections[..k])|));
    var last := SatU32(|AllPages(sections[..k + 1])|);
    SectionEntry(
      input.section, first, last, SatSucc(SatSub(last, first)), Wrap64(SumRows(SectionPages(input))), input.notes)
  }

  function SectionEntries(sections: seq<SectionInput>): (es: seq<SectionEntry>)
    requires forall s :: s in sections ==> Balanced(s)
    ensures |es| == |sections|
  {
    seq(|sections|, k requires 0 <= k < |sections| => SectionEntryAt(sections, k))
  }

  function ManifestOf(sha: Bytes -> Digest, h: Header, notes: ManifestNotes, sections: seq<SectionInput>): Manifest
    requires forall s :: s in sections ==> Balanced(s)
  {
    var pages := AllPages(sections);
    var seed := Genesis(sha, h);
    Manifest(
      SCHEMA_VERSION, h.exportId, h.workspaceId, h.from, h.to, FormatText(h.format), h.pageSize,
      Wrap64(SumRows(pages)), SatU32(|pages|), ToHex(seed), ToHex(ChainRoot(sha, h, DigestsOf(sha, pages))),
      SectionEntries(sections), Entries(sha, seed, pages), notes)
  }

  predicate SectionNamesOk(names: seq<string>) {
    names == REQUIRED_SECTIONS
  }

  function InputNames(sections: seq<SectionInput>): seq<string> {
    seq(|sections|, i requires 0 <= i < |sections| => sections[i].section)
  }

  /** The first thing wrong with the sections offered, if anything is. */
  function InputFault(sections: seq<SectionInput>): Option<BuildError> {
    if !SectionNamesOk(InputNames(sections)) then Some(SectionSetUnexpected) else ShapeFault(sections)
  }

  function ShapeFault(sections: seq<SectionInput>): (f: Option<BuildError>)
    ensures f.None? <==> forall s :: s in sections ==> Balanced(s) && s.pages != []
  {
    if sections == [] then None
    else if !Balanced(sections[0]) then Some(PageRowCountMismatch)
    else if sections[0].pages == [] then Some(EmptySection)
    else
      assert forall s :: s in sections <==> s == sections[0] || s in sections[1..];
      ShapeFault(sections[1..])
  }

  // ----- The loops that build it

  lemma EntriesSnoc(sha: Bytes -> Digest, seed: Digest, pages: seq<PageInput>, p: PageInput)
    ensures DigestsOf(sha, pages + [p]) == DigestsOf(sha, pages) + [sha(p.bytes)]
    ensures ChainAfter(sha, seed, DigestsOf(sha, pages + [p]))
            == ChainStep(sha, ChainAfter(sha, seed, DigestsOf(sha, pages)), sha(p.bytes))
    ensures Entries(sha, seed, pages + [p])
            == Entries(sha, seed, pages)
               + [PageEntry(SatSucc(SatU32(|pages|)), p.section, p.rows, ToHex(sha(p.bytes)),
                            ToHex(ChainAfter(sha, seed, DigestsOf(sha, pages + [p]))))]
    ensures SumRows(pages + [p]) == SumRows(pages) + p.rows as nat
  {
    var ds := DigestsOf(sha, pages);
    var ds' := DigestsOf(sha, pages + [p]);
    assert ds' == ds + [sha(p.bytes)];
    assert ds'[..|ds|] == ds;
    assert ds'[..|pages| + 1] == ds';
    assert (pages + [p])[..|pages|] == pages;
    forall i | 0 <= i < |pages| ensures EntryAt(sha, seed, pages + [p], i) == EntryAt(sha, seed, pages, i) {
      assert ds'[..i + 1] == ds[..i + 1];
    }
  }

  lemma AllPagesSnoc(sections: seq<SectionInput>, k: nat)
    requires k < |sections| && forall s :: s in sections ==> Balanced(s)
    ensures AllPages(sections[..k + 1]) == AllPages(sections[..k]) + SectionPages(sections[k])
  {
    assert sections[..k + 1][..k] == sections[..k];
  }

  // The running variables of the build. Row totals run unbounded and are wrapped
  // once, which is what wrapping at every addition comes to.
  datatype Progress = Progress(chain: Digest, entries: seq<PageEntry>, totalRows: nat)

  function Advance(sha: Bytes -> Digest, g: Progress, section: string, rows: u32, bytes: Bytes): Progress {
    var digest := sha(bytes);
    var chain := ChainStep(sha, g.chain, digest);
    Progress(
      chain,
      g.entries + [PageEntry(SatSucc(SatU32(|g.entries|)), section, rows, ToHex(digest), ToHex(chain))],
      g.totalRows + rows as nat)
  }

  function Step(sha: Bytes -> Digest): (Progress, PageInput) -> Progress {
    (g: Progress, p: PageInput) => Advance(sha, g, p.section, p.rows, p.bytes)
  }

  function ProgressAfter(sha: Bytes -> Digest, seed: Digest, pages: seq<PageInput>): Progress {
    FoldLeft(Step(sha), Progress(seed, [], 0), pages)
  }

  lemma {:induction false} ProgressMeaning(sha: Bytes -> Digest, seed: Digest, pages: seq<PageInput>)
    ensures ProgressAfter(sha, seed, pages)
            == Progress(ChainAfter(sha, seed, DigestsOf(sha, pages)), Entries(sha, seed, pages), SumRows(pages))
  {
    if pages != [] {
      var n := |pages| - 1;
      assert pages == pages[..n] + [pages[n]];
      ProgressMeaning(sha, seed, pages[..n]);
      FoldSnoc(Step(sha), Progress(seed, [], 0), pages[..n], pages[n]);
      EntriesSnoc(sha, seed, pages[..n], pages[n]);
    }
  }

  /** One section's pages folded into the running chain, entries and totals. */
  method FoldSection(sha: Bytes -> Digest, input: SectionInput, start: Progress)
    returns (progress: Progress, sectionRows: nat)
    requires Balanced(input)
    ensures progress == FoldLeft(Step(sha), start, SectionPages(input))
    ensures sectionRows == SumRows(SectionPages(input))
  {
    progress, sectionRows := start, 0;
    ghost var ps := SectionPages(input);
    for index := 0 to |input.pages|
      invariant FoldLeft(Step(sha), progress, ps[index..]) == FoldLeft(Step(sha), start, ps)
      invariant sectionRows == SumRows(ps[..index])
    {
      assert ps[index..][1..] == ps[index + 1..];
      assert ps[..index + 1][..index] == ps[..index];
      var rows := input.rowsPerPage[index];
      progress := Advance(sha, progress, input.section, rows, input.pages[index]);
      sectionRows := sectionRows + rows as nat;
    }
    assert ps[..|input.pages|] == ps;
  }

  lemma SectionStep(sha: Bytes -> Digest, seed: Digest, sections: seq<SectionInput>, k: nat)
    requires k < |sections| && forall s :: s in sections ==> Balanced(s)
    ensures FoldLeft(Step(sha), ProgressAfter(sha, seed, AllPages(sections[..k])), SectionPages(sections[k]))
            == ProgressAfter(sha, seed, AllPages(sections[..k + 1]))
    ensures |ProgressAfter(sha, seed, AllPages(sections[..k])).entries| == |AllPages(sections[..k])|
    ensures |ProgressAfter(sha, seed, AllPages(sections[..k + 1])).entries| == |AllPages(sections[..k + 1])|
  {
    AllPagesSnoc(sections, k);
    FoldConcat(Step(sha), Progress(seed, [], 0), AllPages(sections[..k]), SectionPages(sections[k]));
    ProgressMeaning(sha, seed, AllPages(sections[..k]));
    ProgressMeaning(sha, seed, AllPages(sections[..k + 1]));
  }

  lemma SectionEntriesSnoc(sections: seq<SectionInput>, k: nat)
    requires k < |sections| && forall s :: s in sections ==> Balanced(s)
    ensures SectionEntries(sections)[..k + 1] == SectionEntries(sections)[..k] + [SectionEntryAt(sections, k)]
  {
  }

  method FoldSections(sha: Bytes -> Digest, seed: Digest, sections: seq<SectionInput>)
    returns (progress: Progress, entries: seq<SectionEntry>)
    requires forall s :: s in sections ==> Balanced(s)
    ensures progress == ProgressAfter(sha, seed, AllPages(sections))
    ensures entries == SectionEntries(sections)
  {
    progress, entries := Progress(seed, [], 0), [];
    for k := 0 to |sections|
      invariant progress == ProgressAfter(sha, seed, AllPages(sections[..k]))
      invariant entries == SectionEntries(sections)[..k]
    {
      SectionStep(sha, seed, sections, k);
      SectionEntriesSnoc(sections, k);
      var input := sections[k];
      var firstPage := SatSucc(SatU32(|progress.entries|));
      var sectionRows: nat;
      progress, sectionRows := FoldSection(sha, input, progress);
      var lastPage := SatU32(|progress.entries|);
      entries := entries + [SectionEntry(
        input.section, firstPage, lastPage, SatSucc(SatSub(lastPage, firstPage)), Wrap64(sectionRows), input.notes)];
    }
    assert sections[..|sections|] == sections;
  }

  method CheckSections(sections: seq<SectionInput>) returns (fault: Option<BuildError>)
    ensures fault == InputFault(sections)
  {
    if |sections| != |REQUIRED_SECTIONS|
       || !(forall i :: 0 <= i < |sections| ==> sections[i].section == REQUIRED_SECTIONS[i]) {
      assert InputNames(sections) != REQUIRED_SECTIONS by {
        if |sections| == |REQUIRED_SECTIONS| {
          var i :| 0 <= i < |sections| && sections[i].section != REQUIRED_SECTIONS[i];
          assert InputNames(sections)[i] != REQUIRED_SECTIONS[i];
        }
      }
      return Some(SectionSetUnexpected);
    }
    assert InputNames(sections) == REQUIRED_SECTIONS;
    for k := 0 to |sections|
      invariant ShapeFault(sections) == ShapeFault(sections[k..])
    {
      assert sections[k..][1..] == sections[k + 1..];
      if |sections[k].pages| != |sections[k].rowsPerPage| {
        return Some(PageRowCountMismatch);
      }
      if sections[k].pages == [] {
        return Some(EmptySection);
      }
    }
    return None;
  }

  /** The manifest, or the first thing wrong with the sections offered. */
  method BuildManifest(sha: Bytes -> Digest, h: Header, notes: ManifestNotes, sections: seq<SectionInput>)
    returns (r: Result<Manifest, BuildError>)
    ensures r.Err? <==> InputFault(sections).Some?
    ensures r.Err? ==> Some(r.error) == InputFault(sections)
    ensures r.Ok? ==> (forall s :: s in sections ==> Balanced(s)) && r.value == ManifestOf(sha, h, notes, sections)
  {
    var fault := CheckSections(sections);
    if fault.Some? {
      return Err(fault.value);
    }
    var seed := Genesis(sha, h);
    var progress, sectionEntries := FoldSections(sha, seed, sections);
    ProgressMeaning(sha, seed, AllPages(sections));
    r := Ok(Manifest(
      SCHEMA_VERSION, h.exportId, h.workspaceId, h.from, h.to, FormatText(h.format), h.pageSize,
      Wrap64(progress.totalRows), SatU32(|progress.entries|), ToHex(seed), ToHex(progress.chain),
      sectionEntries, progress.entries, notes));
  }
}
