/** What building and verifying an audit export guarantee together. */
module AuditTheorems {
  import opened Wrappers
  import opened Utf8
  import opened Digits
  import opened AuditChain
  import opened AuditManifest
  import opened AuditVerify

  /** The laws of the libraries: what is printed parses back, what is signed checks. */
  ghost predicate Lawful(p: Primitives) {
    && (forall m :: p.serialize(m).Some? ==>
          && p.parse(p.serialize(m).value) == Some(m)
          && p.rawVersion(p.serialize(m).value) == Some(m.schemaVersion))
    && (forall k: SigningKey, msg :: p.checks(p.publicKey(k), msg, p.sign(k, msg)))
    && (forall k: VerifyingKey :: p.decodeKey(p.encodeKey(k)) == Some(k))
    && (forall s: Signature :: p.decodeSignature(p.encodeSignature(s)) == Some(s))
  }

  function PageBytes(pages: seq<PageInput>): (bs: seq<Bytes>)
    ensures |bs| == |pages| && forall i :: 0 <= i < |pages| ==> bs[i] == pages[i].bytes
  {
    seq(|pages|, i requires 0 <= i < |pages| => pages[i].bytes)
  }

  // ----- The parts of a built manifest pass their checks

  lemma {:induction false} AllPagesPrefix(sections: seq<SectionInput>, k: nat)
    requires k <= |sections| && forall s :: s in sections ==> Balanced(s)
    ensures AllPages(sections[..k]) <= AllPages(sections)
    decreases |sections| - k
  {
    if k < |sections| {
      AllPagesSnoc(sections, k);
      AllPagesPrefix(sections, k + 1);
    } else {
      assert sections[..k] == sections;
    }
  }

  /** Section `k` occupies its own slice of the page list. */
  lemma SectionSlice(sections: seq<SectionInput>, k: nat)
    requires k < |sections| && forall s :: s in sections ==> Balanced(s)
    ensures var a, b := |AllPages(sections[..k])|, |AllPages(sections[..k + 1])|;
            a <= b <= |AllPages(sections)| && AllPages(sections)[a..b] == SectionPages(sections[k])
  {
    AllPagesSnoc(sections, k);
    AllPagesPrefix(sections, k + 1);
    AllPagesPrefix(sections, k);
  }

  // The manifest's page entries carry the section and rows of `pages`.
  ghost predicate Lists(es: seq<PageEntry>, pages: seq<PageInput>) {
    && |es| == |pages|
    && (forall i :: 0 <= i < |es| ==> es[i].section == pages[i].section)
    && (forall i :: 0 <= i < |es| ==> es[i].rows == pages[i].rows)
  }

  lemma {:induction false} SumEntriesIsSumRows(es: seq<PageEntry>, pages: seq<PageInput>, a: nat, b: nat)
    requires Lists(es, pages) && a <= b <= |pages|
    ensures SumEntries(es[a..b]) == SumRows(pages[a..b])
    decreases b - a
  {
    if a < b {
      SumEntriesIsSumRows(es, pages, a, b - 1);
      SumEntriesSnoc(es, a, b - 1);
      assert pages[a..b][..b - 1 - a] == pages[a..b - 1];
    }
  }

  lemma {:induction false} SumRowsBound(pages: seq<PageInput>)
    ensures SumRows(pages) <= |pages| * 0xFFFF_FFFF
  {
    if pages != [] {
      SumRowsBound(pages[..|pages| - 1]);
    }
  }

  lemma WrapIsExact(pages: seq<PageInput>)
    requires |pages| <= 0xFFFF_FFFF
    ensures Wrap64(SumRows(pages)) as int == SumRows(pages)
  {
    SumRowsBound(pages);
  }

  // `m` lists the pages of `sections`, no more than the counters can hold.
  ghost predicate Tabulates(m: Manifest, sections: seq<SectionInput>) {
    && (forall s :: s in sections ==> Balanced(s) && s.pages != [])
    && |AllPages(sections)| <= 0xFFFF_FFFE
    && m.sections == SectionEntries(sections)
    && Lists(m.pages, AllPages(sections))
    && m.totalPages as int == |AllPages(sections)|
    && m.totalRows == Wrap64(SumRows(AllPages(sections)))
  }

  lemma BuiltContiguous(m: Manifest, sections: seq<SectionInput>, k: nat)
    requires Tabulates(m, sections) && k < |sections|
    ensures m.sections[k].firstPage as int == |AllPages(sections[..k])| + 1
    ensures m.sections[k].lastPage as int == |AllPages(sections[..k + 1])|
    ensures Contiguous(m, k)
  {
    AllPagesSnoc(sections, k);
    AllPagesPrefix(sections, k + 1);
    assert sections[k] in sections;
    if k > 0 {
      assert m.sections[k - 1] == SectionEntryAt(sections, k - 1);
    }
  }

  lemma BuiltSection(m: Manifest, sections: seq<SectionInput>, k: nat)
    requires Tabulates(m, sections) && k < |sections|
    ensures SectionOk(m, k)
  {
    hide SumRows, SumEntries;
    var pages := AllPages(sections);
    var a, b := |AllPages(sections[..k])|, |AllPages(sections[..k + 1])|;
    BuiltContiguous(m, sections, k);
    SectionSlice(sections, k);
    assert PagesNamed(m, k) by {
      forall i: int | a + 1 <= i <= b ensures 0 <= i && PageNamed(m, k, i) {
        assert pages[i - 1] == pages[a..b][i - 1 - a];
      }
    }
    SumEntriesIsSumRows(m.pages, pages, a, b);
    WrapIsExact(SectionPages(sections[k]));
  }

  lemma BuiltSections(m: Manifest, sections: seq<SectionInput>)
    requires Tabulates(m, sections) && SectionNamesOk(InputNames(sections))
    ensures SectionsOk(m)
  {
    forall k | 0 <= k < |m.sections| ensures SectionOk(m, k) {
      BuiltSection(m, sections, k);
    }
    assert SectionNames(m) == InputNames(sections);
    var n := |sections|;
    assert n == |REQUIRED_SECTIONS|;
    assert sections[..n] == sections;
    BuiltContiguous(m, sections, n - 1);
  }

  lemma BuiltRows(m: Manifest, sections: seq<SectionInput>)
    requires Tabulates(m, sections)
    ensures SumEntries(m.pages) == m.totalRows as int
  {
    var pages := AllPages(sections);
    SumEntriesIsSumRows(m.pages, pages, 0, |pages|);
    assert pages[0..|pages|] == pages && m.pages[0..|pages|] == m.pages;
    WrapIsExact(pages);
  }

  lemma BuiltTabulates(sha: Bytes -> Digest, h: Header, notes: ManifestNotes, sections: seq<SectionInput>)
    requires (forall s :: s in sections ==> Balanced(s) && s.pages != []) && |AllPages(sections)| <= 0xFFFF_FFFE
    ensures Tabulates(ManifestOf(sha, h, notes, sections), sections)
  {
  }

  lemma BuiltHeader(sha: Bytes -> Digest, h: Header, notes: ManifestNotes, sections: seq<SectionInput>)
    requires forall s :: s in sections ==> Balanced(s)
    requires |AllPages(sections)| <= 0xFFFF_FFFE
    ensures var m := ManifestOf(sha, h, notes, sections);
            Seeded(sha, m) && HeaderOf(m) == h && Counted(m, PageBytes(AllPages(sections)))
  {
    hide ToHex, Genesis, ChainRoot, SumRows, SectionEntries, Entries;
  }

  lemma BuiltPages(sha: Bytes -> Digest, h: Header, notes: ManifestNotes, sections: seq<SectionInput>)
    requires forall s :: s in sections ==> Balanced(s)
    requires |AllPages(sections)| <= 0xFFFF_FFFE
    ensures PagesOk(sha, ManifestOf(sha, h, notes, sections), PageBytes(AllPages(sections)))
  {
    var m := ManifestOf(sha, h, notes, sections);
    var pages := PageBytes(AllPages(sections));
    forall i | 0 <= i < |pages| ensures PageOk(sha, m, pages, i) {
      assert m.pages[i] == EntryAt(sha, Genesis(sha, h), AllPages(sections), i);
    }
  }

  lemma BuiltChain(sha: Bytes -> Digest, h: Header, notes: ManifestNotes, sections: seq<SectionInput>)
    requires forall s :: s in sections ==> Balanced(s)
    requires |AllPages(sections)| <= 0xFFFF_FFFE
    ensures ParseFormat(ManifestOf(sha, h, notes, sections).format).Some?
    ensures ChainOk(sha, ManifestOf(sha, h, notes, sections), PageBytes(AllPages(sections)))
  {
    var m := ManifestOf(sha, h, notes, sections);
    var pages := AllPages(sections);
    BuiltHeader(sha, h, notes, sections);
    assert PageDigests(sha, PageBytes(pages)) == DigestsOf(sha, pages);
    forall i | 0 <= i < |pages| ensures LinkOk(sha, m, PageBytes(pages), i) {
      assert m.pages[i] == EntryAt(sha, Genesis(sha, h), pages, i);
    }
  }

  lemma SmallBuildIsConsistent(sha: Bytes -> Digest, h: Header, notes: ManifestNotes, sections: seq<SectionInput>)
    requires InputFault(sections).None? && |AllPages(sections)| <= 0xFFFF_FFFE
    ensures Consistent(sha, ManifestOf(sha, h, notes, sections), PageBytes(AllPages(sections)))
  {
    var m := ManifestOf(sha, h, notes, sections);
    BuiltTabulates(sha, h, notes, sections);
    BuiltHeader(sha, h, notes, sections);
    BuiltSections(m, sections);
    BuiltPages(sha, h, notes, sections);
    BuiltChain(sha, h, notes, sections);
    BuiltRows(m, sections);
  }

  /** A manifest is consistent with at most 2^32 - 2 pages. */
  lemma ConsistentIsSmall(sha: Bytes -> Digest, m: Manifest, pages: seq<Bytes>)
    requires Consistent(sha, m, pages)
    ensures |pages| <= 0xFFFF_FFFE
  {
    CountIsExact(m, pages);
  }

  lemma SignedDecodes(p: Primitives, key: SigningKey, m: Manifest, x: Submission)
    requires Lawful(p) && p.serialize(m) == Some(x.manifestJson) && m.schemaVersion == SCHEMA_VERSION
    requires x.signature == p.encodeSignature(p.sign(key, Encode(x.manifestJson)))
    requires x.publicKey == p.encodeKey(p.publicKey(key))
    ensures Decoded(p, x, m)
  {
  }

  // ----- Commitment

  /** Two page lists that both agree with one manifest are the same list, or
      exhibit two different pages with the same digest. */
  lemma PagesAreCommitted(sha: Bytes -> Digest, m: Manifest, a: seq<Bytes>, b: seq<Bytes>)
    requires Consistent(sha, m, a) && Consistent(sha, m, b)
    ensures || a == b
            || (exists i :: 0 <= i < |a| && i < |b| && Collision(sha, a[i], b[i]))
  {
    CountIsExact(m, a);
    CountIsExact(m, b);
    if a != b {
      var i :| 0 <= i < |a| && a[i] != b[i];
      assert PageOk(sha, m, a, i) && PageOk(sha, m, b, i);
      ToHexInjective(sha(a[i]), sha(b[i]));
    }
  }

  /** Two verified exports with the same chain root have the same header and the
      same pages in the same order, whatever their lengths, or exhibit a
      collision among the strings hashed in verifying them. */
  lemma RootIdentifiesExport(sha: Bytes -> Digest, m: Manifest, a: seq<Bytes>, n: Manifest, b: seq<Bytes>)
    requires Consistent(sha, m, a) && Consistent(sha, n, b) && m.chainRoot == n.chainRoot
    ensures || (HeaderOf(m) == HeaderOf(n) && a == b)
            || (exists i :: 0 <= i < |a| && i < |b| && Collision(sha, a[i], b[i]))
            || (exists x, y :: x in Preimages(sha, HeaderOf(m), PageDigests(sha, a))
                  && y in Preimages(sha, HeaderOf(n), PageDigests(sha, b)) && Collision(sha, x, y))
  {
    var ds, es := PageDigests(sha, a), PageDigests(sha, b);
    ToHexInjective(ChainRoot(sha, HeaderOf(m), ds), ChainRoot(sha, HeaderOf(n), es));
    RootCommits(sha, HeaderOf(m), ds, HeaderOf(n), es);
    if ds == es && a != b {
      var i :| 0 <= i < |a| && a[i] != b[i];
      assert ds[i] == es[i];
    }
  }

  // ----- What the section table of an accepted manifest says

  ghost predicate InSection(m: Manifest, k: nat, i: nat)
    requires k < |m.sections|
  {
    m.sections[k].firstPage as int <= i <= m.sections[k].lastPage as int
  }

  ghost predicate Owned(m: Manifest, i: nat) {
    exists k :: 0 <= k < |m.sections| && InSection(m, k, i)
  }

  function SectionRows(m: Manifest, k: nat): nat
    requires k <= |m.sections|
  {
    if k == 0 then 0 else SectionRows(m, k - 1) + m.sections[k - 1].rows as nat
  }

  // Pages covered by the first `k` sections.
  function Covered(m: Manifest, k: nat): nat
    requires k <= |m.sections|
  {
    if k == 0 then 0 else m.sections[k - 1].lastPage as nat
  }

  lemma NextIsCovered(m: Manifest, k: nat)
    requires Sized(m) && SectionsOk(m) && k <= |m.sections|
    ensures NextPage(m, k) as int == Covered(m, k) + 1 && Covered(m, k) <= |m.pages| <= 0xFFFF_FFFE
  {
    if k > 0 {
      assert SectionOk(m, k - 1);
    }
  }

  lemma {:induction false} SectionRowsSum(m: Manifest, k: nat)
    requires Sized(m) && SectionsOk(m) && k <= |m.sections|
    ensures Covered(m, k) <= |m.pages| && SectionRows(m, k) == SumEntries(m.pages[..Covered(m, k)])
  {
    if k > 0 {
      SectionRowsSum(m, k - 1);
      NextIsCovered(m, k - 1);
      assert SectionOk(m, k - 1);
      var a, b := Covered(m, k - 1), Covered(m, k);
      SumEntriesSplit(m.pages, a, b);
    }
  }

  lemma {:induction false} SumEntriesSplit(es: seq<PageEntry>, a: nat, b: nat)
    requires a <= b <= |es|
    ensures SumEntries(es[..b]) == SumEntries(es[..a]) + SumEntries(es[a..b])
    decreases b - a
  {
    if a < b {
      SumEntriesSplit(es, a, b - 1);
      SumEntriesSnoc(es, a, b - 1);
      assert es[..b][..b - 1] == es[..b - 1];
    }
  }

  lemma {:induction false} OwnerOf(m: Manifest, i: nat, n: nat) returns (k: nat)
    requires Sized(m) && SectionsOk(m) && n <= |m.sections| && 1 <= i <= Covered(m, n)
    ensures k < n && InSection(m, k, i)
  {
    NextIsCovered(m, n - 1);
    assert SectionOk(m, n - 1);
    if m.sections[n - 1].firstPage as int <= i {
      k := n - 1;
    } else {
      k := OwnerOf(m, i, n - 1);
    }
  }

  lemma SectionsOrdered(m: Manifest, j: nat, k: nat)
    requires Sized(m) && SectionsOk(m) && j < k < |m.sections|
    ensures m.sections[j].lastPage < m.sections[k].firstPage
  {
    hide PagesNamed, RowsAdd;
    NextIsCovered(m, k);
    assert SectionOk(m, k) && SectionOk(m, k - 1);
  }

  /** An accepted manifest's sections partition pages 1..total, each with at least
      one page; every page carries the name of the one section containing it; and
      the sections' row counts sum to `total_rows`, though no check compares them. */
  lemma SectionsPartitionThePages(sha: Bytes -> Digest, m: Manifest, pages: seq<Bytes>)
    requires Consistent(sha, m, pages)
    ensures forall k :: 0 <= k < |m.sections| ==> 1 <= m.sections[k].firstPage <= m.sections[k].lastPage <= m.totalPages
    ensures forall i :: 1 <= i <= m.totalPages as int ==> Owned(m, i)
    ensures forall i, j, k :: 0 <= j < |m.sections| && 0 <= k < |m.sections| && 0 <= i ==>
              InSection(m, j, i) && InSection(m, k, i) ==> j == k
    ensures forall i, k :: 0 <= i && 0 <= k < |m.sections| && InSection(m, k, i) ==>
              1 <= i <= |m.pages| && m.pages[i - 1].section == m.sections[k].section
    ensures SectionRows(m, |m.sections|) == m.totalRows as int
  {
    var n := |m.sections|;
    forall k | 0 <= k < n
      ensures 1 <= m.sections[k].firstPage <= m.sections[k].lastPage <= m.totalPages
    {
      assert SectionOk(m, k);
      NextIsCovered(m, k);
    }
    NextIsCovered(m, n);
    forall i | 1 <= i <= m.totalPages as int ensures Owned(m, i) {
      var k := OwnerOf(m, i, n);
    }
    forall i, j, k | 0 <= j < n && 0 <= k < n && 0 <= i && InSection(m, j, i) && InSection(m, k, i) ensures j == k {
      if j < k {
        SectionsOrdered(m, j, k);
      } else if k < j {
        SectionsOrdered(m, k, j);
      }
    }
    forall i, k | 0 <= i && 0 <= k < n && InSection(m, k, i)
      ensures 1 <= i <= |m.pages| && m.pages[i - 1].section == m.sections[k].section
    {
      assert SectionOk(m, k);
      assert PageNamed(m, k, i);
    }
    SectionRowsSum(m, n);
    assert m.pages[..|m.pages|] == m.pages;
  }
}
