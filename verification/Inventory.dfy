/** The inventory of checked address ranges: conflicts between records, and an exclusive partition. */
module Inventory {
  import opened Results
  import opened Bytes

  datatype Region = Itcm | Flash | InitializedRam | ZeroRam

  const REGIONS := [Itcm, Flash, InitializedRam, ZeroRam]
  const RAM_BASE := 0x2400_0000

  function Start(g: Region): int {
    match g
    case Itcm => 0
    case Flash => 0x0800_0000
    case InitializedRam => RAM_BASE
    case ZeroRam => 0x2400_2e88
  }

  function End(g: Region): int {
    match g
    case Itcm => 28120
    case Flash => 0x0800_3778
    case InitializedRam => 0x2400_2e88
    case ZeroRam => 0x2400_b340
  }

  datatype Kind =
    | FunctionSpan | ExecutableCode | AssemblySpan | ZeroData
    | GeneratedData | LiteralPool | InitializedData | ConstantData

  predicate IsC(k: Kind) {
    k.FunctionSpan? || k.ExecutableCode?
  }

  predicate IsFunction(k: Kind) {
    IsC(k) || k.AssemblySpan?
  }

  predicate IsData(k: Kind) {
    k.GeneratedData? || k.LiteralPool? || k.InitializedData? || k.ConstantData?
  }

  datatype Status = Exact | Unmatched | Stale | Unchecked

  datatype Role = Primary | SemanticReference

  datatype Record = Record(gate: string, name: string, address: int, size: int, kind: Kind,
                           status: Status, role: Role, codeEnd: Option<int>)

  // ----- Validation of a row -----

  /** A row of a report, with every optional entry that the validation looks at. */
  datatype Row = Row(name: string, address: Option<int>, size: Option<int>, kind: string,
                     exact: Option<bool>, candidateSize: Option<int>, matched: Option<int>,
                     expectedSha: Option<string>, candidateSha: Option<string>,
                     codeEnd: Option<int>, role: string)

  datatype RowError =
    | InvalidAddressOrSize | OutsideRegions | UnsupportedKind | ZeroKindMismatch | ExecutableRam
    | NoZeroProof | NoZeroHash | ExactContradictsSize | NoExpandedRam | TruncatedInterval
    | HashDiffersFromStock | ExactContradictsHash | BoundaryOutsideSpan | UnknownRole

  function ParseKind(gate: string, kind: string): Option<Kind> {
    if gate == "runtime" || kind == "runtime_assembly" then Some(AssemblySpan)
    else
      match kind
      case "function" => Some(FunctionSpan)
      case "function_span_code_and_pool" => Some(FunctionSpan)
      case "executable_code" => Some(ExecutableCode)
      case "assembly_span_code_and_pool" => Some(AssemblySpan)
      case "zero_initialized_data" => Some(ZeroData)
      case "generated_data" => Some(GeneratedData)
      case "literal_pool" => Some(LiteralPool)
      case "initialized_data" => Some(InitializedData)
      case "constant_data" => Some(ConstantData)
      case _ => None
  }

  predicate Inside(g: Region, address: int, size: int) {
    Start(g) <= address && address + size <= End(g)
  }

  /** A slice with Python's clamping of its bounds. */
  function Slice(s: seq<byte>, from: int, size: int): seq<byte>
    requires 0 <= size
  {
    var lo := if from < 0 then Max(0, |s| + from) else Min(from, |s|);
    var hi := if from + size < 0 then Max(0, |s| + from + size) else Min(from + size, |s|);
    if lo <= hi then s[lo..hi] else []
  }

  /** The stock bytes that a row claims to match. */
  function ExpectedBytes(kind: Kind, address: int, size: nat, stock: seq<byte>, ram: Option<seq<byte>>)
    : Result<seq<byte>, RowError>
  {
    if kind == ZeroData then Success(seq(size, _ => 0))
    else if address >= RAM_BASE then
      (if ram.None? then Failure(NoExpandedRam) else Success(Slice(ram.value, address - RAM_BASE, size)))
    else Success(Slice(stock, if address < 0x0800_0000 then address + 0x4418 else address - 0x0800_0000, size))
  }

  /** The hash comparison, where a stock image and a recorded hash are given. */
  function CheckHashes(row: Row, kind: Kind, address: int, size: nat, stock: Option<seq<byte>>,
                       ram: Option<seq<byte>>, sha: seq<byte> -> string): Result<(), RowError>
  {
    if stock.None? || row.expectedSha.None? then Success(())
    else
      var expected :- ExpectedBytes(kind, address, size, stock.value, ram);
      if |expected| != size then Failure(TruncatedInterval)
      else if row.expectedSha.value != sha(expected) then Failure(HashDiffersFromStock)
      else if row.exact == Some(true) && row.candidateSha.Some? && row.candidateSha.value != sha(expected) then
        Failure(ExactContradictsHash)
      else Success(())
  }

  /** The validated record of a row, or the first objection to it. */
  function NormalRow(row: Row, gate: string, stale: bool, stock: Option<seq<byte>>, ram: Option<seq<byte>>,
                     zeroRegion: Option<(int, int)>, sha: seq<byte> -> string): (r: Result<Record, RowError>)
    ensures r.Success? ==> Normal(r.value)
  {
    if row.address.None? || row.size.None? || row.size.value <= 0 then Failure(InvalidAddressOrSize)
    else
      var address, size := row.address.value, row.size.value;
      if !exists g :: g in REGIONS && Inside(g, address, size) then Failure(OutsideRegions)
      else
        var parsed := ParseKind(gate, row.kind);
        if parsed.None? then Failure(UnsupportedKind)
        else
          var kind := parsed.value;
          if kind.ZeroData? != Inside(ZeroRam, address, size) then Failure(ZeroKindMismatch)
          else if IsFunction(kind) && address >= RAM_BASE then Failure(ExecutableRam)
          else if kind.ZeroData? && (zeroRegion.None? || !(zeroRegion.value.0 <= address
                                     && address + size <= zeroRegion.value.0 + zeroRegion.value.1)) then
            Failure(NoZeroProof)
          else if kind.ZeroData? && row.expectedSha.None? then Failure(NoZeroHash)
          else if row.exact == Some(true) && ((row.candidateSize.Some? && row.candidateSize.value != size)
                                              || (row.matched.Some? && row.matched.value != size)) then
            Failure(ExactContradictsSize)
          else
            var _ :- CheckHashes(row, kind, address, size, stock, ram, sha);
            if row.codeEnd.Some? && !(address <= row.codeEnd.value <= address + size) then Failure(BoundaryOutsideSpan)
            else
              var status := if stale then Stale
                            else match row.exact case Some(true) => Exact case Some(false) => Unmatched case None => Unchecked;
              if row.role == "primary" then
                Success(Record(gate, row.name, address, size, kind, status, Primary, row.codeEnd))
              else if row.role == "semantic_reference" then
                Success(Record(gate, row.name, address, size, kind, status, SemanticReference, row.codeEnd))
              else Failure(UnknownRole)
  }

  /** The image that a record outside zero storage is compared with, and where in it the record begins. */
  function Origin(address: int, stock: seq<byte>, ram: Option<seq<byte>>): (seq<byte>, int) {
    if address >= RAM_BASE then (if ram.None? then [] else ram.value, address - RAM_BASE)
    else (stock, if address < 0x0800_0000 then address + 0x4418 else address - 0x0800_0000)
  }

  /**
   * Where a stock image and a hash are given, an accepted row's hash is that of the bytes it
   * claims: of zeros, or of exactly its range of the image, which lies inside the image and is
   * neither clamped nor counted from its end. A row accepted as exact has a candidate of the
   * same hash and of its own size.
   */
  lemma AcceptedHash(row: Row, gate: string, stale: bool, stock: seq<byte>, ram: Option<seq<byte>>,
                     zeroRegion: Option<(int, int)>, sha: seq<byte> -> string)
    requires NormalRow(row, gate, stale, Some(stock), ram, zeroRegion, sha).Success? && row.expectedSha.Some?
    ensures var r := NormalRow(row, gate, stale, Some(stock), ram, zeroRegion, sha).value;
            var (image, offset) := Origin(r.address, stock, ram);
            && (r.kind.ZeroData? ==> row.expectedSha.value == sha(seq(r.size, _ => 0)))
            && (!r.kind.ZeroData? ==>
                && 0 <= offset && offset + r.size <= |image|
                && row.expectedSha.value == sha(image[offset..offset + r.size]))
            && (r.status.Exact? ==>
                && (row.candidateSha.Some? ==> row.candidateSha == row.expectedSha)
                && (row.candidateSize.Some? ==> row.candidateSize.value == r.size))
  {
    hide ParseKind, NormalRow, Slice, CheckHashes;
    AcceptedIsChecked(row, gate, stale, Some(stock), ram, zeroRegion, sha);
    var r := NormalRow(row, gate, stale, Some(stock), ram, zeroRegion, sha).value;
    CheckedHash(row, r.kind, r.address, r.size, stock, ram, sha);
    OriginInRange(r, stock, ram);
    SliceInside(Origin(r.address, stock, ram).0, Origin(r.address, stock, ram).1, r.size);
  }

  lemma AcceptedIsChecked(row: Row, gate: string, stale: bool, stock: Option<seq<byte>>, ram: Option<seq<byte>>,
                          zeroRegion: Option<(int, int)>, sha: seq<byte> -> string)
    requires NormalRow(row, gate, stale, stock, ram, zeroRegion, sha).Success?
    ensures var r := NormalRow(row, gate, stale, stock, ram, zeroRegion, sha).value;
            && CheckHashes(row, r.kind, r.address, r.size, stock, ram, sha).Success?
            && (r.status.Exact? ==>
                && row.exact == Some(true) && (row.candidateSize.Some? ==> row.candidateSize.value == r.size))
  {
    hide ParseKind, CheckHashes;
  }

  lemma CheckedHash(row: Row, kind: Kind, address: int, size: nat, stock: seq<byte>, ram: Option<seq<byte>>,
                    sha: seq<byte> -> string)
    requires CheckHashes(row, kind, address, size, Some(stock), ram, sha).Success? && row.expectedSha.Some?
    ensures var (image, offset) := Origin(address, stock, ram);
            var expected := if kind.ZeroData? then seq(size, _ => 0) else Slice(image, offset, size);
            && |expected| == size && row.expectedSha.value == sha(expected)
            && (row.exact == Some(true) && row.candidateSha.Some? ==> row.candidateSha == row.expectedSha)
  {
    hide Slice;
  }

  lemma OriginInRange(r: Record, stock: seq<byte>, ram: Option<seq<byte>>)
    requires Normal(r)
    ensures Origin(r.address, stock, ram).1 >= 0
  {
  }

  /** A slice from a proper offset that is as long as asked for is the range itself. */
  lemma SliceInside(s: seq<byte>, from: int, size: nat)
    requires 0 <= from
    ensures |Slice(s, from, size)| == size ==> size == 0 || (from + size <= |s| && Slice(s, from, size) == s[from..from + size])
  {
  }

  /** What validation guarantees of a record. */
  ghost predicate Normal(r: Record) {
    && r.size > 0
    && (exists g :: g in REGIONS && Inside(g, r.address, r.size))
    && (r.kind.ZeroData? <==> Inside(ZeroRam, r.address, r.size))
    && (IsFunction(r.kind) ==> r.address < RAM_BASE)
    && (r.codeEnd.Some? ==> r.address <= r.codeEnd.value <= r.address + r.size)
  }

  // ----- Overlaps -----

  predicate Covers(r: Record, x: int) {
    r.address <= x < r.address + r.size
  }

  predicate Overlap(a: Record, b: Record) {
    Max(a.address, b.address) < Min(a.address + a.size, b.address + b.size)
  }

  predicate VerdictsDisagree(a: Record, b: Record) {
    (a.status.Exact? && b.status.Unmatched?) || (a.status.Unmatched? && b.status.Exact?)
  }

  /** Two records that cannot both be believed. */
  predicate Conflicting(a: Record, b: Record) {
    Overlap(a, b)
    && if IsFunction(a.kind) && IsFunction(b.kind) then
         || a.kind.AssemblySpan? != b.kind.AssemblySpan?
         || (a.address, a.size) != (b.address, b.size)
         || VerdictsDisagree(a, b)
       else !IsFunction(a.kind) && !IsFunction(b.kind) && VerdictsDisagree(a, b)
  }

  /** Two function records that say the same. */
  predicate Duplicating(a: Record, b: Record) {
    Overlap(a, b) && IsFunction(a.kind) && IsFunction(b.kind) && !Conflicting(a, b)
  }

  lemma ConflictIsSymmetric(a: Record, b: Record)
    ensures Conflicting(a, b) <==> Conflicting(b, a)
    ensures !Conflicting(a, a)
  {
  }

  /** A byte that two conflicting records both cover. */
  predicate Clash(a: Record, b: Record, x: int) {
    Conflicting(a, b) && Covers(a, x) && Covers(b, x)
  }

  // ----- Specification: everything as a function of which records there are -----

  predicate Between(lo: int, x: int, hi: int) {
    lo <= x < hi
  }

  function Range(lo: int, hi: int): (s: set<int>)
    ensures forall x :: x in s <==> lo <= x < hi
  {
    set x | lo <= x < hi && Between(lo, x, hi)
  }

  function Span(r: Record): set<int> {
    Range(r.address, r.address + r.size)
  }

  function Universe(g: Region): set<int> {
    Range(Start(g), End(g))
  }

  /** A part of a record's bytes, chosen by what kind of evidence it is. */
  type Part = Record -> set<int>

  function SpanIf(r: Record, chosen: bool): set<int> {
    if chosen then Span(r) else {}
  }

  const COVERED: Part := (r: Record) => Span(r)
  const DATA: Part := (r: Record) => SpanIf(r, IsData(r.kind))
  const GENERATED: Part := (r: Record) => SpanIf(r, r.kind.GeneratedData?)
  const EXACT_DATA: Part := (r: Record) => SpanIf(r, IsData(r.kind) && r.status.Exact?)
  const EXACT_GENERATED: Part := (r: Record) => SpanIf(r, r.kind.GeneratedData? && r.status.Exact?)
  const EXACT_POOLS: Part := (r: Record) => SpanIf(r, r.kind.LiteralPool? && r.status.Exact?)
  const EXACT_INITIALIZED: Part := (r: Record) => SpanIf(r, r.kind.InitializedData? && r.status.Exact?)
  const ASSEMBLY: Part := (r: Record) => SpanIf(r, r.kind.AssemblySpan?)
  const EXACT_ASSEMBLY: Part := (r: Record) => SpanIf(r, r.kind.AssemblySpan? && r.status.Exact?)
  const UNMATCHED_ASSEMBLY: Part := (r: Record) => SpanIf(r, r.kind.AssemblySpan? && r.status.Unmatched?)
  const ZERO: Part := (r: Record) => SpanIf(r, r.kind.ZeroData?)
  const EXACT_ZERO: Part := (r: Record) => SpanIf(r, r.kind.ZeroData? && r.status.Exact?)
  const UNMATCHED_ZERO: Part := (r: Record) => SpanIf(r, r.kind.ZeroData? && r.status.Unmatched?)
  const EXACT_C: Part := (r: Record) => SpanIf(r, IsC(r.kind) && r.status.Exact?)
  const UNMATCHED_C: Part := (r: Record) => SpanIf(r, IsC(r.kind) && r.status.Unmatched?)
  const STALE: Part := (r: Record) => SpanIf(r, r.status.Stale?)
  const CODE: Part := (r: Record) => CodeOf(r)

  /** The bytes of an exact C record that are known to be instructions. */
  function CodeOf(r: Record): set<int> {
    if !(IsC(r.kind) && r.status.Exact?) then {}
    else if r.kind.ExecutableCode? then Span(r)
    else match r.codeEnd case Some(end) => Span(r) * Range(r.address, end) case None => {}
  }

  /** The union of a part over some records, inside a region. */
  function Points(rs: seq<Record>, part: Part, g: Region): set<int> {
    if rs == [] then {} else Points(rs[..|rs| - 1], part, g) + part(rs[|rs| - 1]) * Universe(g)
  }

  /** The bytes of a region on which some two records conflict. */
  ghost function ConflictPoints(rs: seq<Record>, g: Region): set<int> {
    set x | x in Universe(g) && exists a, b :: a in rs && b in rs && Clash(a, b, x)
  }

  /** Everything that one pass over the records gathers about a region. */
  datatype Evidence = Evidence(
    covered: set<int>, data: set<int>, generated: set<int>, exactData: set<int>,
    exactGenerated: set<int>, exactPools: set<int>,
    assembly: set<int>, exactAssembly: set<int>, unmatchedAssembly: set<int>,
    zero: set<int>, exactZero: set<int>, unmatchedZero: set<int>,
    exactC: set<int>, unmatchedC: set<int>, code: set<int>, stale: set<int>)

  function Gathered(rs: seq<Record>, g: Region): Evidence {
    Evidence(Points(rs, COVERED, g), Points(rs, DATA, g), Points(rs, GENERATED, g), Points(rs, EXACT_DATA, g),
             Points(rs, EXACT_GENERATED, g), Points(rs, EXACT_POOLS, g),
             Points(rs, ASSEMBLY, g), Points(rs, EXACT_ASSEMBLY, g), Points(rs, UNMATCHED_ASSEMBLY, g),
             Points(rs, ZERO, g), Points(rs, EXACT_ZERO, g), Points(rs, UNMATCHED_ZERO, g),
             Points(rs, EXACT_C, g), Points(rs, UNMATCHED_C, g), Points(rs, CODE, g), Points(rs, STALE, g))
  }

  /** The exclusive partition of a region, in the order in which it is reported. */
  function Partition(e: Evidence, conflict: set<int>, g: Region): seq<set<int>> {
    var exactC, exactData := e.exactC - conflict, e.exactData - conflict;
    var exactAssembly, exactZero := e.exactAssembly - conflict, e.exactZero - conflict;
    var exact := exactC + exactData + exactAssembly + exactZero;
    var unmatched := e.unmatchedC + e.unmatchedAssembly + e.unmatchedZero;
    [ exactData,
      exactC - exactData,
      exactAssembly - exactData,
      exactZero,
      conflict,
      e.unmatchedC - exact - conflict,
      e.unmatchedAssembly - exact - conflict - e.unmatchedC,
      e.unmatchedZero - exact - conflict - e.unmatchedC - e.unmatchedAssembly,
      e.stale - exact - conflict - unmatched,
      e.covered - exact - conflict - unmatched - e.stale,
      Universe(g) - e.covered ]
  }

  // ----- Points are a matter of which records there are, not of their order or number -----

  lemma {:induction false} PointsAre(rs: seq<Record>, part: Part, g: Region, x: int)
    ensures x in Points(rs, part, g) <==> x in Universe(g) && exists r :: r in rs && x in part(r)
  {
    if rs != [] {
      var before, last := rs[..|rs| - 1], rs[|rs| - 1];
      PointsAre(before, part, g, x);
      assert forall r :: r in rs <==> r in before || r == last;
    }
  }

  lemma SamePoints(rs: seq<Record>, rs': seq<Record>, part: Part, g: Region)
    requires forall r :: r in rs <==> r in rs'
    ensures Points(rs, part, g) == Points(rs', part, g)
  {
    forall x ensures x in Points(rs, part, g) <==> x in Points(rs', part, g) {
      PointsAre(rs, part, g, x);
      PointsAre(rs', part, g, x);
    }
  }

  /** All byte sets, and so all byte counts, are unchanged by reordering or repeating records. */
  lemma OrderAndRepetitionDoNotMatter(rs: seq<Record>, rs': seq<Record>, g: Region)
    requires forall r :: r in rs <==> r in rs'
    ensures Gathered(rs, g) == Gathered(rs', g)
    ensures ConflictPoints(rs, g) == ConflictPoints(rs', g)
    ensures Partition(Gathered(rs, g), ConflictPoints(rs, g), g)
         == Partition(Gathered(rs', g), ConflictPoints(rs', g), g)
  {
    hide Points;
    SamePoints(rs, rs', COVERED, g);
    SamePoints(rs, rs', DATA, g);
    SamePoints(rs, rs', GENERATED, g);
    SamePoints(rs, rs', EXACT_DATA, g);
    SamePoints(rs, rs', EXACT_GENERATED, g);
    SamePoints(rs, rs', EXACT_POOLS, g);
    SamePoints(rs, rs', ASSEMBLY, g);
    SamePoints(rs, rs', EXACT_ASSEMBLY, g);
    SamePoints(rs, rs', UNMATCHED_ASSEMBLY, g);
    SamePoints(rs, rs', ZERO, g);
    SamePoints(rs, rs', EXACT_ZERO, g);
    SamePoints(rs, rs', UNMATCHED_ZERO, g);
    SamePoints(rs, rs', EXACT_C, g);
    SamePoints(rs, rs', UNMATCHED_C, g);
    SamePoints(rs, rs', CODE, g);
    SamePoints(rs, rs', STALE, g);
  }

  // ----- The partition is exclusive and complete -----

  /** What validated records guarantee about the gathered evidence. */
  ghost predicate Consistent(e: Evidence, conflict: set<int>, g: Region) {
    && e.covered <= Universe(g) && conflict <= e.covered
    && e.exactC <= e.covered && e.exactData <= e.covered && e.exactAssembly <= e.covered && e.exactZero <= e.covered
    && e.unmatchedC <= e.covered && e.unmatchedAssembly <= e.covered && e.unmatchedZero <= e.covered
    && e.stale <= e.covered
    && e.exactC * e.exactAssembly <= conflict
    && e.exactZero !! e.exactC && e.exactZero !! e.exactData && e.exactZero !! e.exactAssembly
  }

  /** The one class of a byte. */
  function ClassOf(e: Evidence, conflict: set<int>, x: int): nat {
    if x in conflict then 4
    else if x in e.exactData then 0
    else if x in e.exactC then 1
    else if x in e.exactAssembly then 2
    else if x in e.exactZero then 3
    else if x in e.unmatchedC then 5
    else if x in e.unmatchedAssembly then 6
    else if x in e.unmatchedZero then 7
    else if x in e.stale then 8
    else if x in e.covered then 9
    else 10
  }

  lemma ClassIsPartition(e: Evidence, conflict: set<int>, g: Region, x: int, k: nat)
    requires Consistent(e, conflict, g) && k < 11
    ensures x in Partition(e, conflict, g)[k] <==> x in Universe(g) && ClassOf(e, conflict, x) == k
  {
  }

  ghost predicate AllNormal(rs: seq<Record>) {
    forall r | r in rs :: Normal(r)
  }

  /** Some record contributes a point to a part. */
  lemma Contributor(rs: seq<Record>, part: Part, g: Region, x: int) returns (r: Record)
    requires x in Points(rs, part, g)
    ensures r in rs && x in part(r) && x in Universe(g)
  {
    PointsAre(rs, part, g, x);
    r :| r in rs && x in part(r);
  }

  lemma PartIsCovered(rs: seq<Record>, part: Part, g: Region)
    requires forall r :: part(r) <= Span(r)
    ensures Points(rs, part, g) <= Points(rs, COVERED, g) <= Universe(g)
  {
    hide Points;
    forall x | x in Points(rs, part, g) ensures x in Points(rs, COVERED, g) {
      var r := Contributor(rs, part, g, x);
      assert x in COVERED(r);
      PointsAre(rs, COVERED, g, x);
    }
    forall x | x in Points(rs, COVERED, g) ensures x in Universe(g) {
      PointsAre(rs, COVERED, g, x);
    }
  }

  /** Two parts whose contributors never share a byte. */
  lemma PartsApart(rs: seq<Record>, p: Part, q: Part, g: Region)
    requires forall a, b, x | a in rs && b in rs && x in p(a) :: x !in q(b)
    ensures Points(rs, p, g) !! Points(rs, q, g)
  {
    hide Points;
    forall x | x in Points(rs, p, g) ensures x !in Points(rs, q, g) {
      var a := Contributor(rs, p, g, x);
      PointsAre(rs, q, g, x);
    }
  }

  /** Zero-initialized storage shares no byte with anything else. */
  lemma ZeroApart(a: Record, b: Record, x: int)
    requires Normal(a) && Normal(b) && a.kind.ZeroData? && !b.kind.ZeroData?
    ensures !(x in Span(a) && x in Span(b))
  {
    var g :| g in REGIONS && Inside(g, b.address, b.size);
    assert g != ZeroRam;
  }

  lemma EvidenceIsConsistent(rs: seq<Record>, g: Region)
    requires AllNormal(rs)
    ensures Consistent(Gathered(rs, g), ConflictPoints(rs, g), g)
  {
    hide Points, Normal;
    PartIsCovered(rs, EXACT_C, g);
    PartIsCovered(rs, EXACT_DATA, g);
    PartIsCovered(rs, EXACT_ASSEMBLY, g);
    PartIsCovered(rs, EXACT_ZERO, g);
    PartIsCovered(rs, UNMATCHED_C, g);
    PartIsCovered(rs, UNMATCHED_ASSEMBLY, g);
    PartIsCovered(rs, UNMATCHED_ZERO, g);
    PartIsCovered(rs, STALE, g);
    ConflictIsCovered(rs, g);
    LanguagesConflict(rs, g);
    ExactZeroApart(rs, g);
  }

  lemma ConflictIsCovered(rs: seq<Record>, g: Region)
    ensures ConflictPoints(rs, g) <= Points(rs, COVERED, g)
  {
    forall x | x in ConflictPoints(rs, g) ensures x in Points(rs, COVERED, g) {
      var a, b :| a in rs && b in rs && Clash(a, b, x);
      assert x in COVERED(a);
      PointsAre(rs, COVERED, g, x);
    }
  }

  /** A byte that is exact both as C and as assembly is a conflict. */
  lemma LanguagesConflict(rs: seq<Record>, g: Region)
    ensures Points(rs, EXACT_C, g) * Points(rs, EXACT_ASSEMBLY, g) <= ConflictPoints(rs, g)
  {
    forall x | x in Points(rs, EXACT_C, g) && x in Points(rs, EXACT_ASSEMBLY, g)
      ensures x in ConflictPoints(rs, g)
    {
      var a := Contributor(rs, EXACT_C, g, x);
      var b := Contributor(rs, EXACT_ASSEMBLY, g, x);
      assert Clash(a, b, x);
    }
  }

  lemma ExactZeroApart(rs: seq<Record>, g: Region)
    requires AllNormal(rs)
    ensures Points(rs, EXACT_ZERO, g) !! Points(rs, EXACT_C, g)
    ensures Points(rs, EXACT_ZERO, g) !! Points(rs, EXACT_DATA, g)
    ensures Points(rs, EXACT_ZERO, g) !! Points(rs, EXACT_ASSEMBLY, g)
  {
    hide Points, Normal, Span;
    forall a, b, x | a in rs && b in rs && x in EXACT_ZERO(a)
      ensures x !in EXACT_C(b) && x !in EXACT_DATA(b) && x !in EXACT_ASSEMBLY(b)
    {
      if !b.kind.ZeroData? { ZeroApart(a, b, x); }
    }
    PartsApart(rs, EXACT_ZERO, EXACT_C, g);
    PartsApart(rs, EXACT_ZERO, EXACT_DATA, g);
    PartsApart(rs, EXACT_ZERO, EXACT_ASSEMBLY, g);
  }

  /**
   * Nothing that is counted as exact is in dispute: all function records over an exact
   * function byte are of one language, have the same bounds and none of them is unmatched,
   * and no data record over an exact data byte is unmatched.
   */
  lemma ExactIsUndisputed(rs: seq<Record>, g: Region, x: int, r: Record)
    requires r in rs && Covers(r, x)
    ensures x in Points(rs, EXACT_C, g) - ConflictPoints(rs, g) && IsFunction(r.kind) ==>
              && IsC(r.kind) && !r.status.Unmatched?
              && exists e :: e in rs && e.status.Exact? && (e.address, e.size) == (r.address, r.size)
    ensures x in Points(rs, EXACT_ASSEMBLY, g) - ConflictPoints(rs, g) && IsFunction(r.kind) ==>
              && r.kind.AssemblySpan? && !r.status.Unmatched?
              && exists e :: e in rs && e.status.Exact? && (e.address, e.size) == (r.address, r.size)
    ensures x in Points(rs, EXACT_DATA, g) - ConflictPoints(rs, g) && !IsFunction(r.kind) ==> !r.status.Unmatched?
  {
    hide Points;
    if x in Points(rs, EXACT_C, g) {
      var e := Contributor(rs, EXACT_C, g, x);
      assert Clash(e, r, x) ==> x in ConflictPoints(rs, g);
    }
    if x in Points(rs, EXACT_ASSEMBLY, g) {
      var e := Contributor(rs, EXACT_ASSEMBLY, g, x);
      assert Clash(e, r, x) ==> x in ConflictPoints(rs, g);
    }
    if x in Points(rs, EXACT_DATA, g) {
      var e := Contributor(rs, EXACT_DATA, g, x);
      assert Clash(e, r, x) ==> x in ConflictPoints(rs, g);
    }
  }

  // ----- Counting -----

  lemma {:induction false} RangeCard(lo: int, hi: int)
    requires lo <= hi
    ensures |Range(lo, hi)| == hi - lo
    decreases hi - lo
  {
    if lo < hi {
      RangeCard(lo, hi - 1);
      assert Range(lo, hi) == Range(lo, hi - 1) + {hi - 1};
    } else {
      assert Range(lo, hi) == {};
    }
  }

  function SumCards(sets: seq<set<int>>): nat {
    if sets == [] then 0 else SumCards(sets[..|sets| - 1]) + |sets[|sets| - 1]|
  }

  function Union(sets: seq<set<int>>): set<int> {
    if sets == [] then {} else Union(sets[..|sets| - 1]) + sets[|sets| - 1]
  }

  lemma {:induction false} UnionAre(sets: seq<set<int>>, x: int)
    ensures x in Union(sets) <==> exists k :: 0 <= k < |sets| && x in sets[k]
  {
    if sets != [] {
      var n := |sets| - 1;
      UnionAre(sets[..n], x);
      assert forall k | 0 <= k < n :: sets[..n][k] == sets[k];
    }
  }

  predicate Exclusive(sets: seq<set<int>>) {
    forall i, j | 0 <= i < j < |sets| :: sets[i] !! sets[j]
  }

  lemma {:induction false} ExclusiveCards(sets: seq<set<int>>)
    requires Exclusive(sets)
    ensures SumCards(sets) == |Union(sets)|
  {
    if sets != [] {
      var n := |sets| - 1;
      assert forall k | 0 <= k < n :: sets[..n][k] == sets[k];
      ExclusiveCards(sets[..n]);
      forall x | x in Union(sets[..n]) ensures x !in sets[n] {
        UnionAre(sets[..n], x);
      }
    }
  }

  lemma PartitionExclusive(e: Evidence, conflict: set<int>, g: Region)
    requires Consistent(e, conflict, g)
    ensures |Partition(e, conflict, g)| == 11 && Exclusive(Partition(e, conflict, g))
  {
    var parts := Partition(e, conflict, g);
    assert |parts| == 11;
    hide Partition, Consistent, ClassOf;
    forall i, j | 0 <= i < j < 11 ensures parts[i] !! parts[j] {
      forall x | x in parts[i] ensures x !in parts[j] {
        ClassIsPartition(e, conflict, g, x, i);
        ClassIsPartition(e, conflict, g, x, j);
      }
    }
  }

  lemma ClassInRange(e: Evidence, conflict: set<int>, x: int)
    ensures ClassOf(e, conflict, x) < 11
  {
  }

  lemma PartitionCovers(e: Evidence, conflict: set<int>, g: Region, x: int)
    requires Consistent(e, conflict, g)
    ensures x in Union(Partition(e, conflict, g)) <==> x in Universe(g)
  {
    var parts := Partition(e, conflict, g);
    assert |parts| == 11;
    hide Partition, Consistent, ClassOf, Union;
    UnionAre(parts, x);
    ClassInRange(e, conflict, x);
    if x in Universe(g) {
      ClassIsPartition(e, conflict, g, x, ClassOf(e, conflict, x));
    }
    forall k | 0 <= k < 11 ensures x in parts[k] ==> x in Universe(g) {
      ClassIsPartition(e, conflict, g, x, k);
    }
  }

  /**
   * For every list of validated records, the eleven parts of each region are pairwise
   * disjoint and cover it, so that their sizes add up to the size of the region.
   */
  lemma PartitionTheorem(rs: seq<Record>, g: Region)
    requires AllNormal(rs)
    ensures var parts := Partition(Gathered(rs, g), ConflictPoints(rs, g), g);
            && |parts| == 11 && Exclusive(parts) && Union(parts) == Universe(g)
            && SumCards(parts) == End(g) - Start(g)
  {
    hide Gathered, ConflictPoints, Partition, Consistent, Union, SumCards, Exclusive;
    var e, conflict := Gathered(rs, g), ConflictPoints(rs, g);
    EvidenceIsConsistent(rs, g);
    PartitionExclusive(e, conflict, g);
    forall x ensures x in Union(Partition(e, conflict, g)) <==> x in Universe(g) {
      PartitionCovers(e, conflict, g, x);
    }
    ExclusiveCards(Partition(e, conflict, g));
    RangeCard(Start(g), End(g));
  }

  /** A record that covers a byte with a verdict puts it among the exact, unmatched or stale bytes. */
  lemma VerdictShows(rs: seq<Record>, g: Region, x: int, r: Record)
    requires r in rs && Covers(r, x) && x in Universe(g)
    ensures var e := Gathered(rs, g);
            && x in e.covered
            && (r.status.Exact? ==> x in e.exactC + e.exactData + e.exactAssembly + e.exactZero)
            && (r.status.Unmatched? && !IsData(r.kind) ==> x in e.unmatchedC + e.unmatchedAssembly + e.unmatchedZero)
            && (r.status.Stale? ==> x in e.stale)
  {
    hide Points;
    var part := match r.status
      case Exact => if IsC(r.kind) then EXACT_C else if IsData(r.kind) then EXACT_DATA
                    else if r.kind.AssemblySpan? then EXACT_ASSEMBLY else EXACT_ZERO
      case Unmatched => if IsC(r.kind) then UNMATCHED_C else if r.kind.AssemblySpan? then UNMATCHED_ASSEMBLY else UNMATCHED_ZERO
      case _ => STALE;
    assert x in COVERED(r);
    PointsAre(rs, COVERED, g, x);
    assert (r.status.Unmatched? && IsData(r.kind)) || r.status.Unchecked? || x in part(r);
    PointsAre(rs, part, g, x);
  }

  /** A byte without conflict that only unchecked records and unmatched data cover has no verdict. */
  lemma NoVerdict(rs: seq<Record>, g: Region, x: int)
    requires forall r | r in rs && Covers(r, x) :: r.status.Unchecked? || (r.status.Unmatched? && IsData(r.kind))
    ensures var e := Gathered(rs, g);
            && x !in e.exactC + e.exactData + e.exactAssembly + e.exactZero
            && x !in e.unmatchedC + e.unmatchedAssembly + e.unmatchedZero
            && x !in e.stale
  {
    hide Points;
    PointsAre(rs, EXACT_DATA, g, x);
    PointsAre(rs, EXACT_C, g, x);
    PointsAre(rs, EXACT_ASSEMBLY, g, x);
    PointsAre(rs, EXACT_ZERO, g, x);
    PointsAre(rs, UNMATCHED_C, g, x);
    PointsAre(rs, UNMATCHED_ASSEMBLY, g, x);
    PointsAre(rs, UNMATCHED_ZERO, g, x);
    PointsAre(rs, STALE, g, x);
  }

  /**
   * What the last two parts mean: a gap is a byte that no record covers; an unchecked byte is
   * one without conflict that some record covers, and every record that covers it is unchecked
   * or unmatched data. Unmatched data has no part of its own.
   */
  lemma LeftoversMean(rs: seq<Record>, g: Region, x: int)
    requires AllNormal(rs) && x in Universe(g)
    ensures var parts := Partition(Gathered(rs, g), ConflictPoints(rs, g), g);
            && (x in parts[10] <==> forall r | r in rs :: !Covers(r, x))
            && (x in parts[9] <==> && x !in ConflictPoints(rs, g)
                                   && (exists r :: r in rs && Covers(r, x))
                                   && forall r | r in rs && Covers(r, x) ::
                                        r.status.Unchecked? || (r.status.Unmatched? && IsData(r.kind)))
  {
    var e, conflict := Gathered(rs, g), ConflictPoints(rs, g);
    EvidenceIsConsistent(rs, g);
    ClassIsPartition(e, conflict, g, x, 9);
    ClassIsPartition(e, conflict, g, x, 10);
    CoveredMeans(rs, g, x);
    ConflictIsCovered(rs, g);
    hide Gathered, ConflictPoints, Partition;
    forall r | r in rs && Covers(r, x) ensures x in e.covered
      && (r.status.Exact? ==> x in e.exactC + e.exactData + e.exactAssembly + e.exactZero)
      && (r.status.Unmatched? && !IsData(r.kind) ==> x in e.unmatchedC + e.unmatchedAssembly + e.unmatchedZero)
      && (r.status.Stale? ==> x in e.stale)
    {
      VerdictShows(rs, g, x, r);
    }
    if forall r | r in rs && Covers(r, x) :: r.status.Unchecked? || (r.status.Unmatched? && IsData(r.kind)) {
      NoVerdict(rs, g, x);
    }
  }

  /** Four bytes of constant data that do not match: they are reported as unchecked. */
  lemma UnmatchedDataIsUnchecked()
    ensures var r := Record("data", "table", 0x0800_0000, 4, ConstantData, Unmatched, Primary, None);
            && Normal(r)
            && forall x | Covers(r, x) :: x in Partition(Gathered([r], Flash), ConflictPoints([r], Flash), Flash)[9]
  {
    var r := Record("data", "table", 0x0800_0000, 4, ConstantData, Unmatched, Primary, None);
    assert Inside(Flash, r.address, r.size) && Flash in REGIONS;
    assert Normal(r);
    hide Gathered, Partition;
    forall x | Covers(r, x) ensures x in Partition(Gathered([r], Flash), ConflictPoints([r], Flash), Flash)[9] {
      LeftoversMean([r], Flash, x);
      ConflictIsSymmetric(r, r);
      assert r in [r];
    }
  }

  lemma CoveredMeans(rs: seq<Record>, g: Region, x: int)
    ensures x in Gathered(rs, g).covered <==> x in Universe(g) && exists r :: r in rs && Covers(r, x)
  {
    hide Points;
    PointsAre(rs, COVERED, g, x);
  }

  // ----- The inventory itself -----

  /** The records that count: semantic references are kept out. */
  function Active(rs: seq<Record>): seq<Record> {
    if rs == [] then []
    else Active(rs[..|rs| - 1]) + (if rs[|rs| - 1].role.SemanticReference? then [] else [rs[|rs| - 1]])
  }

  lemma {:induction false} ActiveAre(rs: seq<Record>, r: Record)
    ensures r in Active(rs) <==> r in rs && !r.role.SemanticReference?
  {
    if rs != [] {
      ActiveAre(rs[..|rs| - 1], r);
      assert r in rs <==> r in rs[..|rs| - 1] || r == rs[|rs| - 1];
    }
  }

  predicate Distinct(pairs: seq<(nat, nat)>) {
    forall m, n | 0 <= m < n < |pairs| :: pairs[m] != pairs[n]
  }

  /** Compares every pair once, in order. */
  method FindConflicts(rs: seq<Record>) returns (conflicts: seq<(nat, nat)>, duplicates: seq<(nat, nat)>)
    ensures forall i: nat, j: nat :: (i, j) in conflicts <==> i < j < |rs| && Conflicting(rs[i], rs[j])
    ensures forall i: nat, j: nat :: (i, j) in duplicates <==> i < j < |rs| && Duplicating(rs[i], rs[j])
    ensures Distinct(conflicts) && Distinct(duplicates)
  {
    hide Conflicting, Duplicating, Overlap;
    conflicts, duplicates := [], [];
    for first := 0 to |rs|
      invariant forall i: nat, j: nat :: (i, j) in conflicts <==> i < first && i < j < |rs| && Conflicting(rs[i], rs[j])
      invariant forall i: nat, j: nat :: (i, j) in duplicates <==> i < first && i < j < |rs| && Duplicating(rs[i], rs[j])
      invariant Distinct(conflicts) && Distinct(duplicates)
    {
      for second := first + 1 to |rs|
        invariant forall i: nat, j: nat :: (i, j) in conflicts <==>
                    (i < first || (i == first && j < second)) && i < j < |rs| && Conflicting(rs[i], rs[j])
        invariant forall i: nat, j: nat :: (i, j) in duplicates <==>
                    (i < first || (i == first && j < second)) && i < j < |rs| && Duplicating(rs[i], rs[j])
        invariant Distinct(conflicts) && Distinct(duplicates)
      {
        OverlapOnly(rs[first], rs[second]);
        if !Overlap(rs[first], rs[second]) { continue; }
        if Conflicting(rs[first], rs[second]) {
          conflicts := conflicts + [(first, second)];
        } else if IsFunction(rs[first].kind) && IsFunction(rs[second].kind) {
          duplicates := duplicates + [(first, second)];
        }
      }
    }
  }

  lemma OverlapOnly(a: Record, b: Record)
    ensures Conflicting(a, b) ==> Overlap(a, b)
    ensures Duplicating(a, b) <==> Overlap(a, b) && IsFunction(a.kind) && IsFunction(b.kind) && !Conflicting(a, b)
  {
  }

  /** The union of the overlaps of all conflicting pairs. */
  method ConflictBytes(rs: seq<Record>, conflicts: seq<(nat, nat)>) returns (bytes: set<int>)
    requires forall i: nat, j: nat :: (i, j) in conflicts <==> i < j < |rs| && Conflicting(rs[i], rs[j])
    ensures forall g :: bytes * Universe(g) == ConflictPoints(rs, g)
  {
    hide Conflicting;
    bytes := {};
    for k := 0 to |conflicts|
      invariant forall x :: x in bytes <==>
                  exists m :: 0 <= m < k && ClashAt(rs, conflicts, m, x)
    {
      var (i, j) := conflicts[k];
      assert (i, j) in conflicts;
      var a, b := rs[i], rs[j];
      ghost var before := bytes;
      bytes := bytes + Range(Max(a.address, b.address), Min(a.address + a.size, b.address + b.size));
      forall x ensures x in bytes <==> x in before || ClashAt(rs, conflicts, k, x) {
      }
    }
    forall g, x | x in Universe(g) ensures x in bytes <==> x in ConflictPoints(rs, g) {
      ClashesAre(rs, conflicts, x);
    }
  }

  ghost predicate ClashAt(rs: seq<Record>, conflicts: seq<(nat, nat)>, m: nat, x: int)
    requires m < |conflicts|
  {
    conflicts[m].0 < |rs| && conflicts[m].1 < |rs| && Clash(rs[conflicts[m].0], rs[conflicts[m].1], x)
  }

  /** Comparing each pair once, in one direction, finds every clash. */
  lemma ClashesAre(rs: seq<Record>, conflicts: seq<(nat, nat)>, x: int)
    requires forall i: nat, j: nat :: (i, j) in conflicts <==> i < j < |rs| && Conflicting(rs[i], rs[j])
    ensures (exists m :: 0 <= m < |conflicts| && ClashAt(rs, conflicts, m, x))
       <==> exists a, b :: a in rs && b in rs && Clash(a, b, x)
  {
    hide Conflicting;
    if m :| 0 <= m < |conflicts| && ClashAt(rs, conflicts, m, x) {
      assert rs[conflicts[m].0] in rs && rs[conflicts[m].1] in rs;
    }
    if a, b :| a in rs && b in rs && Clash(a, b, x) {
      var i :| 0 <= i < |rs| && rs[i] == a;
      var j :| 0 <= j < |rs| && rs[j] == b;
      ConflictIsSymmetric(a, b);
      ConflictIsSymmetric(a, a);
      var pair := if i < j then (i, j) else (j, i);
      assert pair in conflicts;
      var m :| 0 <= m < |conflicts| && conflicts[m] == pair;
      assert ClashAt(rs, conflicts, m, x);
    }
  }

  function Plus(s: set<int>, chosen: bool, points: set<int>): set<int> {
    if chosen then s + points else s
  }

  /** One more record in the evidence. */
  function Added(e: Evidence, r: Record, g: Region): Evidence {
    var points := Span(r) * Universe(g);
    var exact, unmatched := r.status.Exact?, r.status.Unmatched?;
    var exactC := IsC(r.kind) && exact;
    Evidence(e.covered + points, Plus(e.data, IsData(r.kind), points), Plus(e.generated, r.kind.GeneratedData?, points),
             Plus(e.exactData, IsData(r.kind) && exact, points),
             Plus(e.exactGenerated, r.kind.GeneratedData? && exact, points),
             Plus(e.exactPools, r.kind.LiteralPool? && exact, points),
             Plus(e.assembly, r.kind.AssemblySpan?, points),
             Plus(e.exactAssembly, r.kind.AssemblySpan? && exact, points),
             Plus(e.unmatchedAssembly, r.kind.AssemblySpan? && unmatched, points),
             Plus(e.zero, r.kind.ZeroData?, points),
             Plus(e.exactZero, r.kind.ZeroData? && exact, points),
             Plus(e.unmatchedZero, r.kind.ZeroData? && unmatched, points),
             Plus(e.exactC, exactC, points),
             Plus(e.unmatchedC, IsC(r.kind) && unmatched, points),
             if exactC && r.kind.ExecutableCode? then e.code + points
             else if exactC && r.codeEnd.Some? then e.code + points * Range(r.address, r.codeEnd.value)
             else e.code,
             Plus(e.stale, r.status.Stale?, points))
  }

  lemma PointsNext(rs: seq<Record>, k: nat, part: Part, g: Region)
    requires k < |rs|
    ensures Points(rs[..k + 1], part, g) == Points(rs[..k], part, g) + part(rs[k]) * Universe(g)
  {
    var prefix := rs[..k + 1];
    assert prefix[..|prefix| - 1] == rs[..k];
  }

  lemma PartNext(rs: seq<Record>, k: nat, part: Part, chosen: bool, g: Region)
    requires k < |rs| && part(rs[k]) == SpanIf(rs[k], chosen)
    ensures Points(rs[..k + 1], part, g) == Plus(Points(rs[..k], part, g), chosen, Span(rs[k]) * Universe(g))
  {
    PointsNext(rs, k, part, g);
  }

  lemma CodeNext(rs: seq<Record>, k: nat, g: Region)
    requires k < |rs|
    ensures Points(rs[..k + 1], CODE, g) == Added(Gathered(rs[..k], g), rs[k], g).code
  {
    hide Points;
    PointsNext(rs, k, CODE, g);
    var r := rs[k];
    if r.codeEnd.Some? {
      assert (Span(r) * Range(r.address, r.codeEnd.value)) * Universe(g)
          == (Span(r) * Universe(g)) * Range(r.address, r.codeEnd.value);
    }
  }

  lemma GatheredNext(rs: seq<Record>, k: nat, g: Region)
    requires k < |rs|
    ensures Gathered(rs[..k + 1], g) == Added(Gathered(rs[..k], g), rs[k], g)
  {
    hide Points, Span, Universe;
    var r := rs[k];
    PartNext(rs, k, COVERED, true, g);
    PartNext(rs, k, DATA, IsData(r.kind), g);
    PartNext(rs, k, GENERATED, r.kind.GeneratedData?, g);
    PartNext(rs, k, EXACT_DATA, IsData(r.kind) && r.status.Exact?, g);
    PartNext(rs, k, EXACT_GENERATED, r.kind.GeneratedData? && r.status.Exact?, g);
    PartNext(rs, k, EXACT_POOLS, r.kind.LiteralPool? && r.status.Exact?, g);
    PartNext(rs, k, ASSEMBLY, r.kind.AssemblySpan?, g);
    PartNext(rs, k, EXACT_ASSEMBLY, r.kind.AssemblySpan? && r.status.Exact?, g);
    PartNext(rs, k, UNMATCHED_ASSEMBLY, r.kind.AssemblySpan? && r.status.Unmatched?, g);
    PartNext(rs, k, ZERO, r.kind.ZeroData?, g);
    PartNext(rs, k, EXACT_ZERO, r.kind.ZeroData? && r.status.Exact?, g);
    PartNext(rs, k, UNMATCHED_ZERO, r.kind.ZeroData? && r.status.Unmatched?, g);
    PartNext(rs, k, EXACT_C, IsC(r.kind) && r.status.Exact?, g);
    PartNext(rs, k, UNMATCHED_C, IsC(r.kind) && r.status.Unmatched?, g);
    PartNext(rs, k, STALE, r.status.Stale?, g);
    CodeNext(rs, k, g);
  }

  /** The body of the pass over the records: one branch for each family of kinds. */
  method AddRecord(before: Evidence, r: Record, g: Region) returns (e: Evidence)
    ensures e == Added(before, r, g)
  {
    hide Span, Universe;
    var points := Span(r) * Universe(g);
    e := before.(covered := before.covered + points);
    if IsData(r.kind) {
      e := e.(data := e.data + points);
      if r.kind.GeneratedData? {
        e := e.(generated := e.generated + points);
      }
      if r.status.Exact? {
        e := e.(exactData := e.exactData + points);
        if r.kind.GeneratedData? {
          e := e.(exactGenerated := e.exactGenerated + points);
        } else if r.kind.LiteralPool? {
          e := e.(exactPools := e.exactPools + points);
        }
      }
    } else if r.kind.AssemblySpan? {
      e := e.(assembly := e.assembly + points);
      if r.status.Exact? {
        e := e.(exactAssembly := e.exactAssembly + points);
      } else if r.status.Unmatched? {
        e := e.(unmatchedAssembly := e.unmatchedAssembly + points);
      }
    } else if r.kind.ZeroData? {
      e := e.(zero := e.zero + points);
      if r.status.Exact? {
        e := e.(exactZero := e.exactZero + points);
      } else if r.status.Unmatched? {
        e := e.(unmatchedZero := e.unmatchedZero + points);
      }
    } else if r.status.Exact? {
      e := e.(exactC := e.exactC + points);
      if r.kind.ExecutableCode? {
        e := e.(code := e.code + points);
      } else if r.codeEnd.Some? {
        e := e.(code := e.code + points * Range(r.address, r.codeEnd.value));
      }
    } else if r.status.Unmatched? {
      e := e.(unmatchedC := e.unmatchedC + points);
    }
    if r.status.Stale? {
      e := e.(stale := e.stale + points);
    }
  }

  /** What is reported about a region. */
  datatype Summary = Summary(region: Region, evidence: Evidence, conflict: set<int>,
                             exactInitialized: set<int>, parts: seq<set<int>>)

  /** The summaries of all regions, and the pairs of records that duplicate or contradict each other. */
  datatype Report = Report(regions: seq<Summary>, duplicates: seq<(nat, nat)>, conflicts: seq<(nat, nat)>)

  ghost function Summarised(rs: seq<Record>, g: Region): Summary {
    Summary(g, Gathered(rs, g), ConflictPoints(rs, g), Points(rs, EXACT_INITIALIZED, g) - ConflictPoints(rs, g),
            Partition(Gathered(rs, g), ConflictPoints(rs, g), g))
  }

  /** Every byte set and part of a region depends only on which records there are. */
  lemma ReportIgnoresOrder(records: seq<Record>, records': seq<Record>, g: Region)
    requires forall r :: r in records <==> r in records'
    ensures Summarised(Active(records), g) == Summarised(Active(records'), g)
  {
    hide Active, Gathered, ConflictPoints, Partition, Points;
    forall r ensures r in Active(records) <==> r in Active(records') {
      ActiveAre(records, r);
      ActiveAre(records', r);
    }
    OrderAndRepetitionDoNotMatter(Active(records), Active(records'), g);
    SamePoints(Active(records), Active(records'), EXACT_INITIALIZED, g);
  }

  method Gather(rs: seq<Record>, g: Region) returns (e: Evidence)
    ensures e == Gathered(rs, g)
  {
    e := Evidence({}, {}, {}, {}, {}, {}, {}, {}, {}, {}, {}, {}, {}, {}, {}, {});
    for k := 0 to |rs|
      invariant e == Gathered(rs[..k], g)
    {
      GatheredNext(rs, k, g);
      e := AddRecord(e, rs[k], g);
    }
    assert rs[..|rs|] == rs;
  }

  /**
   * The inventory of all regions, with the pairs that conflict or duplicate each other. It fails
   * only if the sizes of some region's parts do not add up, which never happens for validated
   * records.
   */
  method BuildInventory(records: seq<Record>) returns (r: Result<Report, Region>)
    ensures r.Success? ==> |r.value.regions| == |REGIONS|
    ensures r.Success? ==>
              forall k | 0 <= k < |REGIONS| :: r.value.regions[k] == Summarised(Active(records), REGIONS[k])
    ensures r.Success? ==> forall i: nat, j: nat ::
              (i, j) in r.value.conflicts <==> i < j < |Active(records)| && Conflicting(Active(records)[i], Active(records)[j])
    ensures r.Success? ==> forall i: nat, j: nat ::
              (i, j) in r.value.duplicates <==> i < j < |Active(records)| && Duplicating(Active(records)[i], Active(records)[j])
    ensures r.Success? ==> Distinct(r.value.conflicts) && Distinct(r.value.duplicates)
    ensures AllNormal(records) ==> r.Success?
  {
    hide Partition, Gathered, ConflictPoints, SumCards, Exclusive, Union, Normal, Points, Active, Conflicting, Duplicating,
         Distinct;
    var rs := Active(records);
    if AllNormal(records) {
      forall r | r in rs ensures Normal(r) {
        ActiveAre(records, r);
      }
    }
    var conflicts, duplicates := FindConflicts(rs);
    var conflictBytes := ConflictBytes(rs, conflicts);
    var summaries: seq<Summary> := [];
    for k := 0 to |REGIONS|
      invariant |summaries| == k
      invariant forall i | 0 <= i < k :: summaries[i] == Summarised(rs, REGIONS[i])
    {
      var g := REGIONS[k];
      var e := Gather(rs, g);
      var conflict := conflictBytes * Universe(g);
      var parts := Partition(e, conflict, g);
      if AllNormal(records) {
        PartitionTheorem(rs, g);
      }
      summaries := summaries + [Summary(g, e, conflict, Points(rs, EXACT_INITIALIZED, g) - conflict, parts)];
      if SumCards(parts) != End(g) - Start(g) { return Failure(g); }
    }
    return Success(Report(summaries, duplicates, conflicts));
  }
}
