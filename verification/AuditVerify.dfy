/** Verifying an audit export: total on every manifest and page list, accepting
    exactly the consistent ones and naming the first check that fails.

    Machine integers are Dafny newtypes, so that the method verifies at all says
    no index is out of range and no `u32` or `u64` operation overflows. */
module AuditVerify {
  import opened Wrappers
  import opened Utf8
  import opened Digits
  import opened AuditChain
  import opened AuditManifest

  type SigningKey = nat
  type VerifyingKey = nat
  type Signature = nat

  /** The libraries the export rests on, as parameters. */
  datatype Primitives = Primitives(
    sha: Bytes -> Digest,
    serialize: Manifest -> Option<string>,
    rawVersion: string -> Option<u32>,
    parse: string -> Option<Manifest>,
    publicKey: SigningKey -> VerifyingKey,
    sign: (SigningKey, Bytes) -> Signature,
    checks: (VerifyingKey, Bytes, Signature) -> bool,
    encodeKey: VerifyingKey -> string,
    decodeKey: string -> Option<VerifyingKey>,
    encodeSignature: Signature -> string,
    decodeSignature: string -> Option<Signature>)

  datatype SignedExport = SignedExport(
    manifestJson: string,
    signature: string,
    publicKey: string,
    totalRows: u64,
    totalPages: u32,
    pageDigests: seq<string>,
    rowsPerPage: seq<u32>)

  datatype Submission = Submission(manifestJson: string, signature: string, publicKey: string, pages: seq<Bytes>)

  datatype VerifyError =
    | PublicKeyMalformed
    | SignatureMalformed
    | SignatureInvalid
    | ManifestMalformed
    | UnsupportedSchemaVersion(version: u32)
    | ManifestInternallyInconsistent
    | VerifySectionSetUnexpected
    | SectionPagesNotContiguous(sectionIndex: nat)
    | SectionRowCountMismatch(sectionIndex: nat)
    | PageSectionMismatch(page: u32)
    | GenesisMismatch
    | PageCountMismatch(expected: u32, got: u32)
    | PageDigestMismatch(page: u32)
    | ChainBroken(page: u32)
    | ChainRootMismatch
    | RowCountMismatch(declared: u64, summed: u64)

  /** Build, serialize and sign. The digests and row counts surfaced beside the
      manifest are the signed ones. */
  method BuildExport(p: Primitives, key: SigningKey, h: Header, notes: ManifestNotes, sections: seq<SectionInput>)
    returns (r: Result<SignedExport, BuildError>)
    ensures InputFault(sections).Some? ==> r == Err(InputFault(sections).value)
    ensures InputFault(sections).None? ==>
              var m := ManifestOf(p.sha, h, notes, sections);
              && (r.Ok? <==> p.serialize(m).Some?)
              && (r.Err? ==> r.error == ManifestSerialization)
              && (r.Ok? ==>
                    && Some(r.value.manifestJson) == p.serialize(m)
                    && r.value.signature == p.encodeSignature(p.sign(key, Encode(r.value.manifestJson)))
                    && r.value.publicKey == p.encodeKey(p.publicKey(key))
                    && r.value.totalRows == m.totalRows && r.value.totalPages == m.totalPages
                    && |r.value.pageDigests| == |r.value.rowsPerPage| == |m.pages|
                    && (forall i :: 0 <= i < |m.pages| ==> r.value.pageDigests[i] == m.pages[i].sha256)
                    && (forall i :: 0 <= i < |m.pages| ==> r.value.rowsPerPage[i] == m.pages[i].rows))
  {
    var built := BuildManifest(p.sha, h, notes, sections);
    if built.Err? {
      return Err(built.error);
    }
    var m := built.value;
    var json := p.serialize(m);
    if json.None? {
      return Err(ManifestSerialization);
    }
    return Ok(SignedExport(
      json.value, p.encodeSignature(p.sign(key, Encode(json.value))), p.encodeKey(p.publicKey(key)),
      m.totalRows, m.totalPages,
      seq(|m.pages|, i requires 0 <= i < |m.pages| => m.pages[i].sha256),
      seq(|m.pages|, i requires 0 <= i < |m.pages| => m.pages[i].rows)));
  }

  // ----- What each check demands

  ghost predicate Authentic(p: Primitives, x: Submission) {
    && p.decodeKey(x.publicKey).Some?
    && p.decodeSignature(x.signature).Some?
    && p.checks(p.decodeKey(x.publicKey).value, Encode(x.manifestJson), p.decodeSignature(x.signature).value)
  }

  ghost predicate Decoded(p: Primitives, x: Submission, m: Manifest) {
    Authentic(p, x) && p.rawVersion(x.manifestJson) == Some(SCHEMA_VERSION) && p.parse(x.manifestJson) == Some(m)
  }

  predicate Sized(m: Manifest) {
    |m.pages| == m.totalPages as int && ParseFormat(m.format).Some?
  }

  function HeaderOf(m: Manifest): Header
    requires ParseFormat(m.format).Some?
  {
    Header(m.exportId, m.workspaceId, m.from, m.to, ParseFormat(m.format).value, m.pageSize)
  }

  predicate Seeded(sha: Bytes -> Digest, m: Manifest) {
    Sized(m) && ToHex(Genesis(sha, HeaderOf(m))) == m.chainGenesis
  }

  predicate Counted(m: Manifest, pages: seq<Bytes>) {
    SatU32(|pages|) == m.totalPages
  }

  function SectionNames(m: Manifest): seq<string> {
    seq(|m.sections|, i requires 0 <= i < |m.sections| => m.sections[i].section)
  }

  function NextPage(m: Manifest, k: nat): u32
    requires k <= |m.sections|
  {
    if k == 0 then 1 else SatSucc(m.sections[k - 1].lastPage)
  }

  predicate Contiguous(m: Manifest, k: nat)
    requires k < |m.sections|
  {
    var s := m.sections[k];
    && s.firstPage == NextPage(m, k)
    && s.firstPage <= s.lastPage
    && s.pages as int == s.lastPage as int - s.firstPage as int + 1
  }

  function SumEntries(es: seq<PageEntry>): nat {
    if es == [] then 0
    else
      var n := |es| - 1;
      SumEntries(es[..n]) + es[n].rows as nat
  }

  // Page `i` (1-based) exists and names section `k`.
  predicate PageNamed(m: Manifest, k: nat, i: nat)
    requires k < |m.sections|
  {
    1 <= i <= |m.pages| && m.pages[i - 1].section == m.sections[k].section
  }

  ghost predicate PagesNamed(m: Manifest, k: nat)
    requires k < |m.sections|
  {
    forall i: int :: m.sections[k].firstPage as int <= i <= m.sections[k].lastPage as int ==>
      0 <= i && PageNamed(m, k, i)
  }

  ghost predicate RowsAdd(m: Manifest, k: nat)
    requires k < |m.sections|
  {
    var s := m.sections[k];
    && 1 <= s.firstPage as int <= s.lastPage as int <= |m.pages|
    && SumEntries(m.pages[s.firstPage as int - 1..s.lastPage as int]) == s.rows as int
  }

  ghost predicate SectionOk(m: Manifest, k: nat)
    requires k < |m.sections|
  {
    Contiguous(m, k) && PagesNamed(m, k) && RowsAdd(m, k)
  }

  ghost predicate SectionsOk(m: Manifest) {
    && SectionNamesOk(SectionNames(m))
    && (forall k :: 0 <= k < |m.sections| ==> SectionOk(m, k))
    && SatSub(NextPage(m, |m.sections|), 1) == m.totalPages
  }

  predicate NumberOk(m: Manifest, i: nat)
    requires i < |m.pages|
  {
    m.pages[i].page as int == i + 1
  }

  predicate DigestOk(sha: Bytes -> Digest, m: Manifest, pages: seq<Bytes>, i: nat)
    requires i < |m.pages| && i < |pages|
  {
    ToHex(sha(pages[i])) == m.pages[i].sha256
  }

  ghost predicate PageOk(sha: Bytes -> Digest, m: Manifest, pages: seq<Bytes>, i: nat) {
    i < |m.pages| && i < |pages| && NumberOk(m, i) && DigestOk(sha, m, pages, i)
  }

  ghost predicate PagesOk(sha: Bytes -> Digest, m: Manifest, pages: seq<Bytes>) {
    |pages| == |m.pages| && forall i :: 0 <= i < |pages| ==> PageOk(sha, m, pages, i)
  }

  function PageDigests(sha: Bytes -> Digest, pages: seq<Bytes>): (ds: seq<Digest>)
    ensures |ds| == |pages| && forall i :: 0 <= i < |pages| ==> ds[i] == sha(pages[i])
  {
    if pages == [] then []
    else
      var n := |pages| - 1;
      PageDigests(sha, pages[..n]) + [sha(pages[n])]
  }

  ghost predicate LinkOk(sha: Bytes -> Digest, m: Manifest, pages: seq<Bytes>, i: nat)
    requires ParseFormat(m.format).Some? && i < |m.pages| && i < |pages|
  {
    m.pages[i].chain == ToHex(ChainRoot(sha, HeaderOf(m), PageDigests(sha, pages)[..i + 1]))
  }

  ghost predicate ChainOk(sha: Bytes -> Digest, m: Manifest, pages: seq<Bytes>)
    requires ParseFormat(m.format).Some? && |pages| == |m.pages|
  {
    && (forall i :: 0 <= i < |pages| ==> LinkOk(sha, m, pages, i))
    && m.chainRoot == ToHex(ChainRoot(sha, HeaderOf(m), PageDigests(sha, pages)))
  }

  /** The manifest and the pages agree on everything. */
  ghost predicate Consistent(sha: Bytes -> Digest, m: Manifest, pages: seq<Bytes>) {
    && Seeded(sha, m)
    && Counted(m, pages)
    && SectionsOk(m)
    && PagesOk(sha, m, pages)
    && ChainOk(sha, m, pages)
    && SumEntries(m.pages) == m.totalRows as int
  }

  ghost predicate Accepts(p: Primitives, x: Submission, m: Manifest) {
    Decoded(p, x, m) && Consistent(p.sha, m, x.pages)
  }

  // ----- What each error reports: its own check fails and every earlier one holds

  ghost predicate SectionFault(m: Manifest, k: nat, e: VerifyError)
    requires k < |m.sections|
  {
    var s := m.sections[k];
    match e
    case SectionPagesNotContiguous(index) => index == k && !Contiguous(m, k)
    case ManifestInternallyInconsistent =>
      Contiguous(m, k) && s.lastPage as int > |m.pages|
      && (forall j: nat :: s.firstPage as int <= j <= |m.pages| ==> PageNamed(m, k, j))
    case PageSectionMismatch(page) =>
      Contiguous(m, k)
      && exists i: nat :: FirstForeign(m, k, i) && m.pages[i].page == page
    case SectionRowCountMismatch(index) => index == k && Contiguous(m, k) && PagesNamed(m, k) && !RowsAdd(m, k)
    case _ => false
  }

  ghost predicate SectionsFault(m: Manifest, e: VerifyError) {
    || (exists k :: 0 <= k < |m.sections| && (forall j :: 0 <= j < k ==> SectionOk(m, j)) && SectionFault(m, k, e))
    || (e == ManifestInternallyInconsistent
        && (forall k :: 0 <= k < |m.sections| ==> SectionOk(m, k))
        && SatSub(NextPage(m, |m.sections|), 1) != m.totalPages)
  }

  ghost predicate FirstBadPage(sha: Bytes -> Digest, m: Manifest, pages: seq<Bytes>, i: nat) {
    && i < |pages| && i < |m.pages| && !PageOk(sha, m, pages, i)
    && forall j :: 0 <= j < i ==> PageOk(sha, m, pages, j)
  }

  ghost predicate PagesFault(sha: Bytes -> Digest, m: Manifest, pages: seq<Bytes>, e: VerifyError) {
    exists i: nat :: FirstBadPage(sha, m, pages, i)
      && e == if NumberOk(m, i) then PageDigestMismatch(m.pages[i].page) else ManifestInternallyInconsistent
  }

  ghost predicate ChainFault(sha: Bytes -> Digest, m: Manifest, pages: seq<Bytes>, e: VerifyError)
    requires ParseFormat(m.format).Some? && |pages| == |m.pages|
  {
    match e
    case ChainBroken(page) =>
      exists i: nat :: i < |pages| && (forall j :: 0 <= j < i ==> LinkOk(sha, m, pages, j))
        && !LinkOk(sha, m, pages, i) && page == m.pages[i].page
    case ChainRootMismatch =>
      (forall i :: 0 <= i < |pages| ==> LinkOk(sha, m, pages, i)) && !ChainOk(sha, m, pages)
    case RowCountMismatch(declared, summed) =>
      ChainOk(sha, m, pages) && declared == m.totalRows && summed as int == SumEntries(m.pages) && declared != summed
    case _ => false
  }

  ghost predicate ContentFault(sha: Bytes -> Digest, m: Manifest, pages: seq<Bytes>, e: VerifyError) {
    if !Sized(m) then e == ManifestInternallyInconsistent
    else if !Seeded(sha, m) then e == GenesisMismatch
    else if !Counted(m, pages) then e == PageCountMismatch(m.totalPages, SatU32(|pages|))
    else if !SectionNamesOk(SectionNames(m)) then e == VerifySectionSetUnexpected
    else if !SectionsOk(m) then SectionsFault(m, e)
    else if !PagesOk(sha, m, pages) then PagesFault(sha, m, pages, e)
    else ChainFault(sha, m, pages, e)
  }

  ghost predicate Fault(p: Primitives, x: Submission, e: VerifyError) {
    if p.decodeKey(x.publicKey).None? then e == PublicKeyMalformed
    else if p.decodeSignature(x.signature).None? then e == SignatureMalformed
    else if !Authentic(p, x) then e == SignatureInvalid
    else if p.rawVersion(x.manifestJson).None? then e == ManifestMalformed
    else if p.rawVersion(x.manifestJson).value != SCHEMA_VERSION then
      e == UnsupportedSchemaVersion(p.rawVersion(x.manifestJson).value)
    else if p.parse(x.manifestJson).None? then e == ManifestMalformed
    else ContentFault(p.sha, p.parse(x.manifestJson).value, x.pages, e)
  }

  // ----- The first failing check is one check

  lemma SectionFaultFails(m: Manifest, k: nat, e: VerifyError)
    requires k < |m.sections| && SectionFault(m, k, e)
    ensures !SectionOk(m, k)
  {
    if e.PageSectionMismatch? {
      var i: nat :| FirstForeign(m, k, i) && m.pages[i].page == e.page;
      ForeignFails(m, k, i);
    } else if e.ManifestInternallyInconsistent? {
      assert !PageNamed(m, k, m.sections[k].lastPage as int);
    }
  }

  // The first page of section `k` that names another one.
  ghost predicate FirstForeign(m: Manifest, k: nat, i: nat)
    requires k < |m.sections|
  {
    var s := m.sections[k];
    && i < |m.pages| && s.firstPage as int <= i + 1 <= s.lastPage as int && m.pages[i].section != s.section
    && forall j: nat :: s.firstPage as int <= j <= i ==> PageNamed(m, k, j)
  }

  lemma FirstForeignUnique(m: Manifest, k: nat, i: nat, j: nat)
    requires k < |m.sections| && FirstForeign(m, k, i) && FirstForeign(m, k, j)
    ensures i == j
  {
    assert i < j ==> PageNamed(m, k, i + 1);
    assert j < i ==> PageNamed(m, k, j + 1);
  }

  lemma ForeignFails(m: Manifest, k: nat, i: nat)
    requires k < |m.sections| && FirstForeign(m, k, i)
    ensures !PageNamed(m, k, i + 1) && !PagesNamed(m, k)
  {
  }

  lemma SectionFaultUnique(m: Manifest, k: nat, e: VerifyError, f: VerifyError)
    requires k < |m.sections| && SectionFault(m, k, e) && SectionFault(m, k, f)
    ensures e == f
  {
    var s := m.sections[k];
    if e.PageSectionMismatch? {
      var i: nat :| FirstForeign(m, k, i) && m.pages[i].page == e.page;
      ForeignFails(m, k, i);
      if f.PageSectionMismatch? {
        var j: nat :| FirstForeign(m, k, j) && m.pages[j].page == f.page;
        FirstForeignUnique(m, k, i, j);
      }
    } else if f.PageSectionMismatch? {
      var j: nat :| FirstForeign(m, k, j) && m.pages[j].page == f.page;
      ForeignFails(m, k, j);
    } else {
      assert PagesNamed(m, k) ==> PageNamed(m, k, s.lastPage as int) || s.firstPage > s.lastPage;
    }
  }

  lemma SectionsFaultUnique(m: Manifest, e: VerifyError, f: VerifyError)
    requires SectionsFault(m, e) && SectionsFault(m, f)
    ensures e == f
  {
    hide SectionOk;
    if k :| 0 <= k < |m.sections| && (forall j :: 0 <= j < k ==> SectionOk(m, j)) && SectionFault(m, k, e) {
      hide SectionFault;
      SectionFaultFails(m, k, e);
      var l :| 0 <= l < |m.sections| && (forall j :: 0 <= j < l ==> SectionOk(m, j)) && SectionFault(m, l, f);
      SectionFaultFails(m, l, f);
      SectionFaultUnique(m, k, e, f);
    } else if l :| 0 <= l < |m.sections| && (forall j :: 0 <= j < l ==> SectionOk(m, j)) && SectionFault(m, l, f) {
      SectionFaultFails(m, l, f);
    }
  }

  lemma FirstBadPageUnique(sha: Bytes -> Digest, m: Manifest, pages: seq<Bytes>, i: nat, j: nat)
    requires FirstBadPage(sha, m, pages, i) && FirstBadPage(sha, m, pages, j)
    ensures i == j
  {
    hide PageOk;
  }

  lemma PagesFaultUnique(sha: Bytes -> Digest, m: Manifest, pages: seq<Bytes>, e: VerifyError, f: VerifyError)
    requires PagesFault(sha, m, pages, e) && PagesFault(sha, m, pages, f)
    ensures e == f
  {
    var i: nat :| FirstBadPage(sha, m, pages, i)
      && e == if NumberOk(m, i) then PageDigestMismatch(m.pages[i].page) else ManifestInternallyInconsistent;
    var j: nat :| FirstBadPage(sha, m, pages, j)
      && f == if NumberOk(m, j) then PageDigestMismatch(m.pages[j].page) else ManifestInternallyInconsistent;
    FirstBadPageUnique(sha, m, pages, i, j);
  }

  lemma ChainFaultUnique(sha: Bytes -> Digest, m: Manifest, pages: seq<Bytes>, e: VerifyError, f: VerifyError)
    requires ParseFormat(m.format).Some? && |pages| == |m.pages|
    requires ChainFault(sha, m, pages, e) && ChainFault(sha, m, pages, f)
    ensures e == f
  {
    hide LinkOk, SumEntries;
  }

  lemma ContentFaultUnique(sha: Bytes -> Digest, m: Manifest, pages: seq<Bytes>, e: VerifyError, f: VerifyError)
    requires ContentFault(sha, m, pages, e) && ContentFault(sha, m, pages, f)
    ensures e == f
  {
    hide Seeded, Counted, SectionNamesOk, SectionsOk, PagesOk, SectionsFault, PagesFault, ChainFault;
    if !Sized(m) || !Seeded(sha, m) || !Counted(m, pages) || !SectionNamesOk(SectionNames(m)) {
    } else if !SectionsOk(m) {
      SectionsFaultUnique(m, e, f);
    } else if !PagesOk(sha, m, pages) {
      PagesFaultUnique(sha, m, pages, e, f);
    } else {
      assert |pages| == |m.pages| by {
        CountIsExact(m, pages);
      }
      ChainFaultUnique(sha, m, pages, e, f);
    }
  }

  /** A submission that is not accepted has exactly one first failing check. */
  lemma FaultUnique(p: Primitives, x: Submission, e: VerifyError, f: VerifyError)
    requires Fault(p, x, e) && Fault(p, x, f)
    ensures e == f
  {
    hide ContentFault, Authentic;
    if p.parse(x.manifestJson).Some? {
      var m := p.parse(x.manifestJson).value;
      if ContentFault(p.sha, m, x.pages, e) && ContentFault(p.sha, m, x.pages, f) {
        ContentFaultUnique(p.sha, m, x.pages, e, f);
      }
    }
  }

  // ----- The loops

  lemma {:induction false} SumEntriesBound(es: seq<PageEntry>)
    ensures SumEntries(es) <= |es| * 0xFFFF_FFFF
  {
    if es != [] {
      SumEntriesBound(es[..|es| - 1]);
    }
  }

  lemma SumEntriesSnoc(es: seq<PageEntry>, a: nat, b: nat)
    requires a <= b < |es|
    ensures SumEntries(es[a..b + 1]) == SumEntries(es[a..b]) + es[b].rows as nat
  {
    assert es[a..b + 1][..b - a] == es[a..b];
  }

  // Row sums over a `u32` number of pages fit in a `u64`.
  lemma SumFits(es: seq<PageEntry>, a: nat, b: nat)
    requires a <= b <= |es| && b - a <= 0xFFFF_FFFF
    ensures SumEntries(es[a..b]) <= 0xFFFF_FFFF * 0xFFFF_FFFF
  {
    SumEntriesBound(es[a..b]);
  }

  method CheckSectionPages(m: Manifest, k: nat) returns (fault: Option<VerifyError>)
    requires k < |m.sections| && Contiguous(m, k) && 1 <= m.sections[k].firstPage as int <= |m.pages| + 1
    ensures fault.None? <==> PagesNamed(m, k) && RowsAdd(m, k)
    ensures fault.Some? ==> SectionFault(m, k, fault.value)
  {
    var s := m.sections[k];
    var first, last := s.firstPage as int, s.lastPage as int;
    var sectionRows: u64 := 0;
    for page := first to last + 1
      invariant page - 1 <= |m.pages|
      invariant forall i: nat :: first <= i < page ==> PageNamed(m, k, i)
      invariant sectionRows as int == SumEntries(m.pages[first - 1..page - 1])
    {
      if page - 1 >= |m.pages| {
        assert !PageNamed(m, k, page);
        return Some(ManifestInternallyInconsistent);
      }
      var entry := m.pages[page - 1];
      if entry.section != s.section {
        assert !PageNamed(m, k, page);
        return Some(PageSectionMismatch(entry.page));
      }
      SumEntriesSnoc(m.pages, first - 1, page - 1);
      SumFits(m.pages, first - 1, page);
      sectionRows := sectionRows + entry.rows as u64;
    }
    if sectionRows != s.rows {
      return Some(SectionRowCountMismatch(k));
    }
    return None;
  }

  method CheckPartition(m: Manifest) returns (fault: Option<VerifyError>)
    requires SectionNamesOk(SectionNames(m))
    ensures fault.None? <==> SectionsOk(m)
    ensures fault.Some? ==> SectionsFault(m, fault.value)
  {
    var nextPage: u32 := 1;
    for k := 0 to |m.sections|
      invariant nextPage == NextPage(m, k) && 1 <= nextPage as int <= |m.pages| + 1
      invariant forall j :: 0 <= j < k ==> SectionOk(m, j)
    {
      var s := m.sections[k];
      if s.firstPage != nextPage || s.lastPage < s.firstPage || s.pages != s.lastPage - s.firstPage + 1 {
        assert SectionFault(m, k, SectionPagesNotContiguous(k)) && !SectionOk(m, k);
        return Some(SectionPagesNotContiguous(k));
      }
      fault := CheckSectionPages(m, k);
      if fault.Some? {
        assert !SectionOk(m, k);
        return;
      }
      nextPage := SatSucc(s.lastPage);
    }
    if SatSub(nextPage, 1) != m.totalPages {
      return Some(ManifestInternallyInconsistent);
    }
    return None;
  }

  method CheckPages(sha: Bytes -> Digest, m: Manifest, pages: seq<Bytes>) returns (fault: Option<VerifyError>)
    requires |pages| == |m.pages| <= 0xFFFF_FFFF
    ensures fault.None? <==> PagesOk(sha, m, pages)
    ensures fault.Some? ==> PagesFault(sha, m, pages, fault.value)
  {
    for index := 0 to |pages|
      invariant forall j :: 0 <= j < index ==> PageOk(sha, m, pages, j)
    {
      var entry := m.pages[index];
      if entry.page as u64 != index as u64 + 1 {
        assert !PageOk(sha, m, pages, index);
        return Some(ManifestInternallyInconsistent);
      }
      if ToHex(sha(pages[index])) != entry.sha256 {
        assert !PageOk(sha, m, pages, index);
        return Some(PageDigestMismatch(entry.page));
      }
    }
    return None;
  }

  // The digest text of a page that passed its check decodes to that page's digest.
  lemma DigestDecodes(sha: Bytes -> Digest, m: Manifest, pages: seq<Bytes>, i: nat)
    requires PagesOk(sha, m, pages) && i < |pages|
    ensures FromHex(m.pages[i].sha256) == Some(sha(pages[i]))
  {
    assert PageOk(sha, m, pages, i);
    HexRoundTrip(sha(pages[i]));
  }

  lemma ChainSnoc(sha: Bytes -> Digest, h: Header, ds: seq<Digest>, i: nat)
    requires i < |ds|
    ensures ChainRoot(sha, h, ds[..i + 1]) == ChainStep(sha, ChainRoot(sha, h, ds[..i]), ds[i])
  {
    assert ds[..i + 1][..i] == ds[..i];
  }

  lemma ChainLoopStep(sha: Bytes -> Digest, m: Manifest, pages: seq<Bytes>, i: nat)
    requires ParseFormat(m.format).Some? && PagesOk(sha, m, pages) && i < |m.pages| <= 0xFFFF_FFFF
    ensures FromHex(m.pages[i].sha256) == Some(sha(pages[i]))
    ensures var h, ds := HeaderOf(m), PageDigests(sha, pages);
            ChainRoot(sha, h, ds[..i + 1]) == ChainStep(sha, ChainRoot(sha, h, ds[..i]), sha(pages[i]))
    ensures SumEntries(m.pages[0..i + 1]) == SumEntries(m.pages[0..i]) + m.pages[i].rows as nat
    ensures SumEntries(m.pages[0..i + 1]) < 0x1_0000_0000_0000_0000
  {
    DigestDecodes(sha, m, pages, i);
    ChainSnoc(sha, HeaderOf(m), PageDigests(sha, pages), i);
    SumEntriesSnoc(m.pages, 0, i);
    SumFits(m.pages, 0, i + 1);
  }

  // The loop variables after `i` pages whose links agree.
  ghost predicate ChainProgress(sha: Bytes -> Digest, m: Manifest, pages: seq<Bytes>, i: nat,
                                chain: Digest, summed: u64)
    requires ParseFormat(m.format).Some? && |pages| == |m.pages|
  {
    && i <= |pages|
    && chain == ChainRoot(sha, HeaderOf(m), PageDigests(sha, pages)[..i])
    && (forall j :: 0 <= j < i ==> LinkOk(sha, m, pages, j))
    && summed as int == SumEntries(m.pages[0..i])
  }

  lemma ChainStarts(sha: Bytes -> Digest, m: Manifest, pages: seq<Bytes>)
    requires ParseFormat(m.format).Some? && |pages| == |m.pages|
    ensures ChainProgress(sha, m, pages, 0, Genesis(sha, HeaderOf(m)), 0)
  {
    assert PageDigests(sha, pages)[..0] == [] && m.pages[0..0] == [];
  }

  lemma ChainAdvances(sha: Bytes -> Digest, m: Manifest, pages: seq<Bytes>, i: nat, chain: Digest, summed: u64)
    requires ParseFormat(m.format).Some? && PagesOk(sha, m, pages) && i < |m.pages| <= 0xFFFF_FFFF
    requires ChainProgress(sha, m, pages, i, chain, summed)
    ensures FromHex(m.pages[i].sha256) == Some(sha(pages[i]))
    ensures summed as int + m.pages[i].rows as int < 0x1_0000_0000_0000_0000
    ensures var next := ChainStep(sha, chain, sha(pages[i]));
            && (LinkOk(sha, m, pages, i) <==> ToHex(next) == m.pages[i].chain)
            && (ToHex(next) == m.pages[i].chain ==>
                  ChainProgress(sha, m, pages, i + 1, next, summed + m.pages[i].rows as u64))
  {
    hide ToHex, FromHex, Genesis, ParseFormat, ChainRoot, SumEntries;
    ChainLoopStep(sha, m, pages, i);
  }

  lemma ChainEnds(sha: Bytes -> Digest, m: Manifest, pages: seq<Bytes>, chain: Digest, summed: u64)
    requires ParseFormat(m.format).Some? && |pages| == |m.pages|
    requires ChainProgress(sha, m, pages, |pages|, chain, summed)
    ensures ChainOk(sha, m, pages) <==> ToHex(chain) == m.chainRoot
    ensures forall i :: 0 <= i < |pages| ==> LinkOk(sha, m, pages, i)
    ensures summed as int == SumEntries(m.pages)
  {
    hide ToHex, ChainRoot, SumEntries;
    var ds := PageDigests(sha, pages);
    assert ds[..|pages|] == ds && m.pages[0..|m.pages|] == m.pages;
  }

  lemma ChainBreaks(sha: Bytes -> Digest, m: Manifest, pages: seq<Bytes>, i: nat, chain: Digest, summed: u64)
    requires ParseFormat(m.format).Some? && |pages| == |m.pages| && i < |pages|
    requires ChainProgress(sha, m, pages, i, chain, summed) && !LinkOk(sha, m, pages, i)
    ensures ChainFault(sha, m, pages, ChainBroken(m.pages[i].page)) && !ChainOk(sha, m, pages)
  {
    hide LinkOk;
  }

  method CheckChain(sha: Bytes -> Digest, m: Manifest, ghost pages: seq<Bytes>) returns (fault: Option<VerifyError>)
    requires ParseFormat(m.format).Some? && PagesOk(sha, m, pages) && |m.pages| <= 0xFFFF_FFFF
    ensures fault.None? <==> ChainOk(sha, m, pages) && SumEntries(m.pages) == m.totalRows as int
    ensures fault.Some? ==> ChainFault(sha, m, pages, fault.value)
  {
    hide ToHex, FromHex, Genesis, ParseFormat, ChainProgress, LinkOk, SumEntries, PageOk;
    var chain := Genesis(sha, HeaderOf(m));
    var summed: u64 := 0;
    ChainStarts(sha, m, pages);
    for i := 0 to |m.pages|
      invariant ChainProgress(sha, m, pages, i, chain, summed)
    {
      var entry := m.pages[i];
      ChainAdvances(sha, m, pages, i, chain, summed);
      var digest := FromHex(entry.sha256);
      if digest.None? || |digest.value| != 32 {
        assert false;
        return Some(ManifestMalformed);
      }
      ghost var before := chain;
      chain := ChainStep(sha, chain, digest.value);
      if ToHex(chain) != entry.chain {
        ChainBreaks(sha, m, pages, i, before, summed);
        return Some(ChainBroken(entry.page));
      }
      summed := summed + entry.rows as u64;
    }
    ChainEnds(sha, m, pages, chain, summed);
    if ToHex(chain) != m.chainRoot {
      return Some(ChainRootMismatch);
    }
    if summed != m.totalRows {
      return Some(RowCountMismatch(m.totalRows, summed));
    }
    return None;
  }

  /** A saturated page count never passes the partition check, so a count that
      passes is exact and below 2^32 - 1. */
  lemma CountIsExact(m: Manifest, pages: seq<Bytes>)
    requires Sized(m) && Counted(m, pages) && SectionsOk(m)
    ensures |pages| == |m.pages| <= 0xFFFF_FFFE
  {
  }

  method CheckContents(sha: Bytes -> Digest, m: Manifest, pages: seq<Bytes>) returns (fault: Option<VerifyError>)
    ensures fault.None? <==> Consistent(sha, m, pages)
    ensures fault.Some? ==> ContentFault(sha, m, pages, fault.value)
  {
    if |m.pages| != m.totalPages as int || ParseFormat(m.format).None? {
      return Some(ManifestInternallyInconsistent);
    }
    var seed := Genesis(sha, HeaderOf(m));
    if ToHex(seed) != m.chainGenesis {
      return Some(GenesisMismatch);
    }
    var got := SatU32(|pages|);
    if got != m.totalPages {
      return Some(PageCountMismatch(m.totalPages, got));
    }
    if SectionNames(m) != REQUIRED_SECTIONS {
      return Some(VerifySectionSetUnexpected);
    }
    fault := CheckPartition(m);
    if fault.Some? {
      return;
    }
    CountIsExact(m, pages);
    fault := CheckPages(sha, m, pages);
    if fault.Some? {
      return;
    }
    fault := CheckChain(sha, m, pages);
  }

  /** Accept exactly the consistent, authentic submissions; otherwise name the
      first check that fails. */
  method VerifyExport(p: Primitives, x: Submission) returns (r: Result<Manifest, VerifyError>)
    ensures r.Ok? ==> Accepts(p, x, r.value)
    ensures r.Err? ==> Fault(p, x, r.error) && forall m :: !Accepts(p, x, m)
  {
    var key := p.decodeKey(x.publicKey);
    if key.None? {
      return Err(PublicKeyMalformed);
    }
    var signature := p.decodeSignature(x.signature);
    if signature.None? {
      return Err(SignatureMalformed);
    }
    if !p.checks(key.value, Encode(x.manifestJson), signature.value) {
      return Err(SignatureInvalid);
    }
    var version := p.rawVersion(x.manifestJson);
    if version.None? {
      return Err(ManifestMalformed);
    }
    if version.value != SCHEMA_VERSION {
      return Err(UnsupportedSchemaVersion(version.value));
    }
    var manifest := p.parse(x.manifestJson);
    if manifest.None? {
      return Err(ManifestMalformed);
    }
    var fault := CheckContents(p.sha, manifest.value, x.pages);
    if fault.Some? {
      return Err(fault.value);
    }
    return Ok(manifest.value);
  }
}
