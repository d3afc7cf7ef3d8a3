/**
 * One export asset of a layer or of a document: where it was written, at
 * which scale, in which format, and where it stands in the export state
 * machine.
 */
module ExportAssets {
  import opened Common

  /** The asset's place in the export state machine. */
  datatype Status = New | Requested | Stable

  /** The status as the record stores it. */
  function StatusText(s: Status): (r: string)
    ensures r in {"new", "requested", "stable"}
    ensures (r == "new") == (s == New) && (r == "stable") == (s == Stable)
  {
    match s
    case New => "new"
    case Requested => "requested"
    case Stable => "stable"
  }

  /**
   * An export asset. The scale is kept in hundredths (150 is a scale of
   * 1.5); kind is the record's type field, the file format; the file path
   * is null until the asset has been written.
   */
  datatype ExportAsset = ExportAsset(filePath: Option<string>, scale: int, kind: string, status: Status)

  /**
   * The fields a props object sets: each is either given or absent, and a
   * given file path may itself be null.
   */
  datatype AssetProps = AssetProps(filePath: Option<Option<string>>, scale: Option<int>, kind: Option<string>, status: Option<Status>)

  /** The record's defaults: no file, scale 1, "png", new. */
  function Defaults(): (a: ExportAsset)
    ensures a.filePath.None? && a.scale == 100 && a.kind == "png" && StatusText(a.status) == "new"
  {
    ExportAsset(None, 100, "png", New)
  }

  /** Immutable's merge of a props object into an asset: the given fields override, the others stay. */
  function Merge(a: ExportAsset, p: AssetProps): (r: ExportAsset)
    ensures p.filePath.Some? ==> r.filePath == p.filePath.value
    ensures p.filePath.None? ==> r.filePath == a.filePath
    ensures p.scale.Some? ==> r.scale == p.scale.value
    ensures p.scale.None? ==> r.scale == a.scale
    ensures p.kind.Some? ==> r.kind == p.kind.value
    ensures p.kind.None? ==> r.kind == a.kind
    ensures p.status.Some? ==> r.status == p.status.value
    ensures p.status.None? ==> r.status == a.status
  {
    ExportAsset(
      if p.filePath.Some? then p.filePath.value else a.filePath,
      if p.scale.Some? then p.scale.value else a.scale,
      if p.kind.Some? then p.kind.value else a.kind,
      if p.status.Some? then p.status.value else a.status)
  }

  /** Merging the same props twice is merging them once. */
  lemma MergeIdempotent(a: ExportAsset, p: AssetProps)
    ensures Merge(Merge(a, p), p) == Merge(a, p)
  {
  }

  /** The record built from a props object: the defaults with the given fields. */
  function FromProps(p: AssetProps): (r: ExportAsset)
    ensures r == Merge(Defaults(), p)
    ensures p.scale.Some? ==> r.scale == p.scale.value
  {
    Merge(Defaults(), p)
  }

  /** setStatusRequested: the status becomes requested and no other field changes. */
  function SetStatusRequested(a: ExportAsset): (r: ExportAsset)
    ensures StatusText(r.status) == "requested"
    ensures r.filePath == a.filePath && r.scale == a.scale && r.kind == a.kind
  {
    a.(status := Requested)
  }

  /** setStatusStable: the status becomes stable and no other field changes. */
  function SetStatusStable(a: ExportAsset): (r: ExportAsset)
    ensures StatusText(r.status) == "stable"
    ensures r.filePath == a.filePath && r.scale == a.scale && r.kind == a.kind
  {
    a.(status := Stable)
  }

  /** Each status setter, applied twice, is applied once. */
  lemma StatusSettersIdempotent(a: ExportAsset)
    ensures SetStatusRequested(SetStatusRequested(a)) == SetStatusRequested(a)
    ensures SetStatusStable(SetStatusStable(a)) == SetStatusStable(a)
  {
  }

  // ----- the composite id -----

  /** The digits after the point of a fraction of hundredths, without trailing zeros, as String() writes them. */
  function FractionText(f: nat): (r: string)
    requires f < 100
    ensures f == 0 <==> r == []
    ensures r != [] ==> r[0] == '.' && 2 <= |r| <= 3
    ensures forall i :: 1 <= i < |r| ==> '0' <= r[i] <= '9'
  {
    if f == 0 then []
    else if f % 10 == 0 then ['.', Digit(f / 10)]
    else ['.', Digit(f / 10), Digit(f % 10)]
  }

  /** The magnitude of a scale, in hundredths. */
  function Magnitude(c: int): nat {
    if c < 0 then -c else c
  }

  /** The unsigned part of a written scale: the whole part and the fraction. */
  function UnsignedText(m: nat): (r: string)
    ensures |r| > 0 && '@' !in r && '-' !in r
  {
    NatToString(m / 100) + FractionText(m % 100)
  }

  /** A scale in hundredths as String() writes the number: sign, whole part, and the fraction when there is one. */
  function ScaleText(c: int): (r: string)
    ensures |r| > 0 && '@' !in r
    ensures c < 0 ==> r == "-" + UnsignedText(Magnitude(c))
    ensures c >= 0 ==> r == UnsignedText(Magnitude(c))
  {
    (if c < 0 then "-" else "") + UnsignedText(Magnitude(c))
  }

  /** getId: the format, an at sign, and the scale. */
  function GetId(a: ExportAsset): (r: string)
    ensures |r| > |a.kind| && r[..|a.kind|] == a.kind && r[|a.kind|] == '@'
  {
    a.kind + "@" + ScaleText(a.scale)
  }

  /**
   * Two strings cut at the first occurrence of a mark: when neither head
   * holds the mark and each tail is empty or starts with it, equal
   * concatenations have equal heads and equal tails.
   */
  lemma SplitAtMark(x1: string, t1: string, x2: string, t2: string, mark: char)
    requires x1 + t1 == x2 + t2
    requires mark !in x1 && mark !in x2
    requires t1 == [] || t1[0] == mark
    requires t2 == [] || t2[0] == mark
    ensures x1 == x2 && t1 == t2
  {
    assert x1 == (x1 + t1)[..|x1|];
    assert x2 == (x2 + t2)[..|x2|];
    assert t1 == (x1 + t1)[|x1|..];
    assert t2 == (x2 + t2)[|x2|..];
  }

  /** The fraction digits determine the fraction. */
  lemma FractionTextInjective(f: nat, g: nat)
    requires f < 100 && g < 100 && FractionText(f) == FractionText(g)
    ensures f == g
  {
  }

  /** Different magnitudes are written differently. */
  lemma UnsignedTextInjective(m: nat, n: nat)
    requires UnsignedText(m) == UnsignedText(n)
    ensures m == n
  {
    var wm, wn := NatToString(m / 100), NatToString(n / 100);
    assert '.' !in wm && '.' !in wn;
    SplitAtMark(wm, FractionText(m % 100), wn, FractionText(n % 100), '.');
    NatToStringInjective(m / 100, n / 100);
    FractionTextInjective(m % 100, n % 100);
  }

  /** Different scales are written differently. */
  lemma ScaleTextInjective(c: int, d: int)
    requires ScaleText(c) == ScaleText(d)
    ensures c == d
  {
    var uc, ud := UnsignedText(Magnitude(c)), UnsignedText(Magnitude(d));
    if c < 0 && d < 0 {
      assert uc == ScaleText(c)[1..] && ud == ScaleText(d)[1..];
    }
    UnsignedTextInjective(Magnitude(c), Magnitude(d));
  }

  /**
   * The id names the asset's format and scale: for formats without an at
   * sign, two assets with the same id have the same format and scale.
   */
  lemma GetIdInjective(a: ExportAsset, b: ExportAsset)
    requires '@' !in a.kind && '@' !in b.kind
    requires GetId(a) == GetId(b)
    ensures a.kind == b.kind && a.scale == b.scale
  {
    var sa, sb := ScaleText(a.scale), ScaleText(b.scale);
    ConcatAssoc(a.kind, "@", sa);
    ConcatAssoc(b.kind, "@", sb);
    SplitAtMark(a.kind, "@" + sa, b.kind, "@" + sb, '@');
    ConcatParts("@", sa);
    ConcatParts("@", sb);
    ScaleTextInjective(a.scale, b.scale);
  }

  /** The default asset's id is "png@1". */
  lemma GetIdExamples()
    ensures GetId(Defaults()) == "png@1"
  {
    assert ScaleText(100) == "1";
  }

  /** Scales of 1.5, 0.25 and -0.5 are written "1.5", "0.25" and "-0.5". */
  lemma ScaleTextExamples()
    ensures ScaleText(150) == "1.5" && ScaleText(25) == "0.25" && ScaleText(-50) == "-0.5"
  {
    assert UnsignedText(150) == "1.5";
    assert UnsignedText(25) == "0.25";
    assert UnsignedText(50) == "0.5";
  }
}
