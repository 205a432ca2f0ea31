/** The seeded hash chain of an audit export, and what its root commits to. The
    hash function is a parameter: nothing is assumed of it, and commitment is
    stated as "equal, or here are two different strings with the same digest". */
module AuditChain {
  import opened Wrappers
  import opened Utf8
  import opened Digits

  newtype u32 = x: int | 0 <= x < 0x1_0000_0000
  newtype u64 = x: int | 0 <= x < 0x1_0000_0000_0000_0000

  type Digest = d: Bytes | |d| == 32 witness seq(32, _ => 0)

  // Header fields in their manifest spelling. A UUID prints as 36 characters and
  // neither it nor an RFC 3339 instant contains a line feed.
  type UuidText = s: string | |s| == 36 && '\n' !in s witness seq(36, _ => '0')
  type InstantText = s: string | '\n' !in s witness ""

  datatype ExportFormat = Csv | Jsonl

  function FormatText(f: ExportFormat): string {
    match f case Csv => "csv" case Jsonl => "jsonl"
  }

  function ParseFormat(s: string): Option<ExportFormat> {
    if s == "csv" then Some(Csv) else if s == "jsonl" then Some(Jsonl) else None
  }

  datatype Header = Header(
    exportId: UuidText,
    workspaceId: UuidText,
    from: InstantText,
    to: InstantText,
    format: ExportFormat,
    pageSize: u32)

  const GENESIS_DOMAIN := "secureprompt.audit_export.v1"

  function HeaderText(h: Header): string {
    GENESIS_DOMAIN + "\n" + (h.exportId + "\n" + (h.workspaceId + "\n" + (h.from + "\n" + (h.to + "\n" +
    (FormatText(h.format) + "\n" + (Decimal(h.pageSize as int) + "\n"))))))
  }

  function GenesisPreimage(h: Header): Bytes {
    Encode(HeaderText(h))
  }

  function Genesis(sha: Bytes -> Digest, h: Header): Digest {
    sha(GenesisPreimage(h))
  }

  function LinkPreimage(prev: Digest, digest: Digest): Bytes {
    prev + digest
  }

  function ChainStep(sha: Bytes -> Digest, prev: Digest, digest: Digest): Digest {
    sha(LinkPreimage(prev, digest))
  }

  /** The chain value after folding `digests` in, in order. */
  function ChainAfter(sha: Bytes -> Digest, seed: Digest, digests: seq<Digest>): Digest {
    if digests == [] then seed
    else
      var n := |digests| - 1;
      ChainStep(sha, ChainAfter(sha, seed, digests[..n]), digests[n])
  }

  function ChainRoot(sha: Bytes -> Digest, h: Header, digests: seq<Digest>): Digest {
    ChainAfter(sha, Genesis(sha, h), digests)
  }

  /** Every string hashed while computing the root. */
  function Preimages(sha: Bytes -> Digest, h: Header, digests: seq<Digest>): set<Bytes> {
    if digests == [] then {GenesisPreimage(h)}
    else
      var n := |digests| - 1;
      Preimages(sha, h, digests[..n]) + {LinkPreimage(ChainRoot(sha, h, digests[..n]), digests[n])}
  }

  ghost predicate Collision(sha: Bytes -> Digest, x: Bytes, y: Bytes) {
    x != y && sha(x) == sha(y)
  }

  // ----- The header text determines the header

  lemma LineSplit(a: string, x: string, b: string, y: string)
    requires '\n' !in a && '\n' !in b && a + "\n" + x == b + "\n" + y
    ensures a == b && x == y
  {
    var l, r := a + "\n" + x, b + "\n" + y;
    assert l[|a|] == '\n' && r[|b|] == '\n';
    assert |a| == |b|;
    assert l[..|a|] == a && r[..|b|] == b && l[|a| + 1..] == x && r[|b| + 1..] == y;
  }

  lemma HeaderTextInjective(g: Header, h: Header)
    requires HeaderText(g) == HeaderText(h)
    ensures g == h
  {
    var g6 := Decimal(g.pageSize as int) + "\n";
    var h6 := Decimal(h.pageSize as int) + "\n";
    var g5 := FormatText(g.format) + "\n" + g6;
    var h5 := FormatText(h.format) + "\n" + h6;
    var g4 := g.to + "\n" + g5;
    var h4 := h.to + "\n" + h5;
    var g3 := g.from + "\n" + g4;
    var h3 := h.from + "\n" + h4;
    var g2 := g.workspaceId + "\n" + g3;
    var h2 := h.workspaceId + "\n" + h3;
    LineSplit(GENESIS_DOMAIN, g.exportId + "\n" + g2, GENESIS_DOMAIN, h.exportId + "\n" + h2);
    LineSplit(g.exportId, g2, h.exportId, h2);
    LineSplit(g.workspaceId, g3, h.workspaceId, h3);
    LineSplit(g.from, g4, h.from, h4);
    LineSplit(g.to, g5, h.to, h5);
    LineSplit(FormatText(g.format), g6, FormatText(h.format), h6);
    assert g6[..|g6| - 1] == Decimal(g.pageSize as int) && h6[..|h6| - 1] == Decimal(h.pageSize as int);
    DecimalInjective(g.pageSize as int, h.pageSize as int);
  }

  /** The seed's preimage is never a link's preimage: it is longer than 64 bytes. */
  lemma GenesisIsNotALink(h: Header, prev: Digest, digest: Digest)
    ensures |GenesisPreimage(h)| > 100
    ensures GenesisPreimage(h) != LinkPreimage(prev, digest)
  {
    assert |GENESIS_DOMAIN| == 28;
  }

  /** Equal roots force equal headers, equally many pages and the same digests in
      the same order, across exports of any lengths, or exhibit a collision among
      the strings hashed in the two computations. */
  lemma {:induction false} RootCommits(sha: Bytes -> Digest, g: Header, ds: seq<Digest>, h: Header, es: seq<Digest>)
    requires ChainRoot(sha, g, ds) == ChainRoot(sha, h, es)
    ensures || (g == h && ds == es)
            || (exists x, y :: x in Preimages(sha, g, ds) && y in Preimages(sha, h, es) && Collision(sha, x, y))
    decreases |ds| + |es|
  {
    hide HeaderText, Preimages;
    var x := LastPreimage(sha, g, ds);
    var y := LastPreimage(sha, h, es);
    if x != y {
      assert Collision(sha, x, y);
    } else if ds == [] && es == [] {
      EncodeInjective(HeaderText(g), HeaderText(h));
      HeaderTextInjective(g, h);
    } else if ds == [] {
      GenesisIsNotALink(g, ChainRoot(sha, h, es[..|es| - 1]), es[|es| - 1]);
    } else if es == [] {
      GenesisIsNotALink(h, ChainRoot(sha, g, ds[..|ds| - 1]), ds[|ds| - 1]);
    } else {
      var m, n := |ds| - 1, |es| - 1;
      assert x[..32] == ChainRoot(sha, g, ds[..m]) && x[32..] == ds[m];
      assert y[..32] == ChainRoot(sha, h, es[..n]) && y[32..] == es[n];
      RootCommits(sha, g, ds[..m], h, es[..n]);
      assert ds == ds[..m] + [ds[m]] && es == es[..n] + [es[n]];
      PreimagesGrow(sha, g, ds);
      PreimagesGrow(sha, h, es);
    }
  }

  // The string hashed last.
  function LastPreimage(sha: Bytes -> Digest, h: Header, digests: seq<Digest>): (x: Bytes)
    ensures x in Preimages(sha, h, digests)
    ensures sha(x) == ChainRoot(sha, h, digests)
  {
    if digests == [] then GenesisPreimage(h)
    else
      var n := |digests| - 1;
      LinkPreimage(ChainRoot(sha, h, digests[..n]), digests[n])
  }

  lemma PreimagesGrow(sha: Bytes -> Digest, h: Header, digests: seq<Digest>)
    requires digests != []
    ensures Preimages(sha, h, digests[..|digests| - 1]) <= Preimages(sha, h, digests)
  {
  }
}
