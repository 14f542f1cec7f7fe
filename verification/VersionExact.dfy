/** When a version is found for a message, and when it is the least one. */
module VersionExact {
  import opened Arith
  import opened GF256
  import opened QRSpec
  import opened Segments
  import opened Estimate
  import opened VersionChoice

  ghost predicate AllChecked(es: seq<Entry>) { forall i :: 0 <= i < |es| ==> Check(es[i]) }

  lemma CheckedValid(es: seq<Entry>)
    requires AllChecked(es)
    ensures AllValid(es)
  {
    hide ModeData;
  }

  /** How many bits a version holds. */
  function Cap(version: nat, level: Level): nat
    requires version <= VERSION_MAX
  {
    8 * DataLength(version, level)
  }

  /** The least version that holds that many bits; 0 if none does. */
  function VersionFor(bits: nat, level: Level): (v: nat)
    ensures v <= VERSION_MAX
  {
    MinVersion(Bytes(bits), level)
  }

  lemma VersionForMeaning(bits: nat, level: Level, v: nat)
    requires 1 <= v <= VERSION_MAX
    ensures bits <= Cap(v, level) <==> 1 <= VersionFor(bits, level) <= v
  {
    hide DataLength, MinVersion;
    MinVersionMeaning(Bytes(bits), level, v);
  }

  lemma CapFacts(level: Level)
    ensures Cap(9, level) <= 1856 && Cap(26, level) <= 10960 && Cap(40, level) <= 23648
    ensures 4768 <= Cap(26, level) && 10208 <= Cap(40, level) && 2 * Cap(26, level) <= Cap(40, level)
    ensures Cap(9, level) < Cap(26, level) && 515 * Cap(25, level) <= 512 * Cap(26, level)
  {}

  lemma CapMonotone(u: nat, v: nat, level: Level)
    requires u <= v <= VERSION_MAX
    ensures Cap(u, level) <= Cap(v, level)
  {
    hide DataLength;
    DataLengthMonotone(u, v, level);
  }

  // ---- Lengths depend on the class of a version only ----

  /** A number of bits for each of the three widths of a length field. */
  datatype PerClass = PerClass(c0: nat, c1: nat, c2: nat) {
    function At(version: nat): nat {
      var l := SizeClass(version);
      if l == 0 then c0 else if l == 1 then c1 else c2
    }
  }

  function Estimates(es: seq<Entry>): PerClass {
    PerClass(EstimateAll(es, 0), EstimateAll(es, 10), EstimateAll(es, 27))
  }

  function Lengths(es: seq<Entry>): PerClass
    requires AllValid(es)
  {
    PerClass(|EncodeAll(es, 0)|, |EncodeAll(es, 10)|, |EncodeAll(es, 27)|)
  }

  /** The length without any groups: the payload and one header of the smallest size. */
  function Base(e: Entry): nat {
    if e.mode == Structure then STRUCTURE_HEADER_SIZE
    else EstimateBits(e.mode, |e.data|) + MODE_INDICATOR_SIZE + LengthIndicator(e.mode, 0)
  }

  function BaseAll(es: seq<Entry>): nat {
    if es == [] then 0 else Base(es[0]) + BaseAll(es[1..])
  }

  lemma EntryClass(e: Entry, u: nat, v: nat)
    requires Check(e) && SizeClass(u) == SizeClass(v)
    ensures ModeData(e.mode, e.data)
    ensures EstimateEntry(e, u) == EstimateEntry(e, v) && |EncodeEntry(e, u)| == |EncodeEntry(e, v)|
  {
    hide ModeData, EncodeEntry, EstimateBits, Pow2, CeilDiv, Product, CutLoss, SizeClass;
    ClassZero(e.mode);
    if e.mode == Structure {
      HeaderLength(e, u); HeaderLength(e, v);
    } else {
      EntryLength(e, u); EntryLength(e, v);
      assert LengthIndicator(e.mode, u) == LengthIndicator(e.mode, v);
      hide LengthIndicator;
    }
  }

  lemma HeaderLength(e: Entry, version: nat)
    requires Check(e) && e.mode == Structure
    ensures |EncodeEntry(e, version)| == EstimateEntry(e, version) == STRUCTURE_HEADER_SIZE
  {
    hide ModeData, EncodeEntry;
    EstimateExact(e, version);
  }

  lemma {:induction false} SameClass(es: seq<Entry>, u: nat, v: nat)
    requires AllChecked(es) && AllValid(es) && SizeClass(u) == SizeClass(v)
    ensures EstimateAll(es, u) == EstimateAll(es, v) && |EncodeAll(es, u)| == |EncodeAll(es, v)|
  {
    hide ModeData, EncodeEntry, EstimateEntry, SizeClass;
    if es != [] {
      EntryClass(es[0], u, v);
      SameClass(es[1..], u, v);
    }
  }

  lemma ClassOf(es: seq<Entry>, version: nat)
    requires AllChecked(es) && AllValid(es)
    ensures Estimates(es).At(version) == EstimateAll(es, version)
    ensures Lengths(es).At(version) == |EncodeAll(es, version)|
  {
    hide ModeData, EncodeAll, EstimateAll, AllChecked, AllValid;
    var l := SizeClass(version);
    SameClass(es, if l == 0 then 0 else if l == 1 then 10 else 27, version);
  }

  // ---- All estimates and lengths of a message are within a factor of two ----

  lemma PayloadBounds(mode: Mode, n: nat)
    requires mode != Structure && (mode == Kanji ==> n % 2 == 0)
    ensures 3 * n <= EstimateBits(mode, n)
  {}

  lemma CeilBound(n: nat, m: nat)
    requires 1 <= n && 255 <= m
    ensures 1 <= CeilDiv(n, m) && 255 * (CeilDiv(n, m) - 1) < n
    ensures CutLoss(n, m) <= CeilDiv(n, m)
  {
    CeilIs(n, m);
    QuotRem(n - 1, m);
    var q := Quot(n - 1, m);
    TimesLe(q, 255, m);
    hide Quot, Rem;
  }

  lemma HeaderBounds(mode: Mode, version: nat)
    requires mode != Structure
    ensures var h, h0 := LengthIndicator(mode, version), LengthIndicator(mode, 0); 8 <= h0 <= h <= 16
  {}

  lemma GroupBounds(q: nat, h: nat, h0: nat, bits: nat, n: nat, loss: nat)
    requires 1 <= q && 255 * (q - 1) < n && 3 * n <= bits && loss <= q && 12 <= h0 <= h <= 20
    ensures bits + h0 <= bits + Product(q, h) + loss <= 2 * (bits + h0)
  {
    MulLe(1, q, h);
    assert q * h == (q - 1) * h + h;
    TimesLe(q - 1, h, 20);
  }

  lemma EntryBounds(e: Entry, version: nat)
    requires Check(e)
    ensures ModeData(e.mode, e.data)
    ensures Base(e) <= EstimateEntry(e, version) <= 2 * Base(e)
    ensures Base(e) <= |EncodeEntry(e, version)| <= 2 * Base(e)
  {
    hide EncodeEntry, EstimateBits, Pow2, CeilDiv, Product, CutLoss, LengthIndicator, MaximumWords;
    var n := |e.data|;
    assert e.mode == Kanji ==> n % 2 == 0 by { if e.mode == Kanji { KanjiEven(e.data); } }
    hide ModeData;
    if e.mode == Structure {
      HeaderLength(e, version);
    } else {
      ClassZero(e.mode);
      EntryLength(e, version);
      LargestSegment(e.mode, version);
      HeaderBounds(e.mode, version);
      PayloadBounds(e.mode, n);
      var m, p := MaximumWords(e.mode, version), Pow2(LengthIndicator(e.mode, version));
      var h, h0, bits := 4 + LengthIndicator(e.mode, version), 4 + LengthIndicator(e.mode, 0), EstimateBits(e.mode, n);
      CeilBound(n, m); CeilBound(n, p);
      GroupBounds(CeilDiv(n, m), h, h0, bits, n, SegmentLoss(e.mode, n, m));
      GroupBounds(CeilDiv(n, p), h, h0, bits, n, 0);
    }
  }

  lemma {:induction false} AllBounds(es: seq<Entry>, version: nat)
    requires AllChecked(es) && AllValid(es)
    ensures BaseAll(es) <= EstimateAll(es, version) <= 2 * BaseAll(es)
    ensures BaseAll(es) <= |EncodeAll(es, version)| <= 2 * BaseAll(es)
  {
    hide ModeData, EncodeEntry, EstimateEntry, Base;
    if es != [] {
      EntryBounds(es[0], version);
      AllBounds(es[1..], version);
    }
  }

  ghost predicate Within(c: PerClass, base: nat) {
    base <= c.c0 <= 2 * base && base <= c.c1 <= 2 * base && base <= c.c2 <= 2 * base
  }

  lemma BothWithin(es: seq<Entry>)
    requires AllChecked(es) && AllValid(es)
    ensures Within(Estimates(es), BaseAll(es)) && Within(Lengths(es), BaseAll(es))
  {
    hide ModeData, EncodeAll, EstimateAll, AllChecked, AllValid, BaseAll;
    AllBounds(es, 0); AllBounds(es, 10); AllBounds(es, 27);
  }

  // ---- An estimate that fits is not too low ----

  /** What is estimated for version u to fit into v, with fields no wider than those of u, does fit
      there. */
  lemma EntryAdmitted(e: Entry, u: nat, v: nat, free: nat)
    requires Check(e) && v >= 1 && SizeClass(v) <= SizeClass(u) && EstimateEntry(e, u) <= free
    requires free <= if v <= 9 then 1856 else if v <= 26 then 10960 else 23648
    ensures ModeData(e.mode, e.data) && |EncodeEntry(e, v)| <= EstimateEntry(e, u)
  {
    hide ModeData, EncodeEntry, EncodeChunk, EstimateBits;
    if e.mode == Structure {
      HeaderLength(e, v);
    } else {
      PayloadFits(e, v, free) by { assert EstimateBits(e.mode, |e.data|) <= free; }
      OneSegment(e, v);
      ChunkLength(e, v);
      hide TooLong;
      NarrowerHeader(e, u, v);
    }
  }

  lemma PayloadFits(e: Entry, v: nat, free: nat)
    requires e.mode != Structure && EstimateBits(e.mode, |e.data|) <= free
    requires free <= if v <= 9 then 1856 else if v <= 26 then 10960 else 23648
    ensures !TooLong(e, v)
  {
    SmallPowers();
  }

  lemma NarrowerHeader(e: Entry, u: nat, v: nat)
    requires e.mode != Structure && e.data != [] && SizeClass(v) <= SizeClass(u)
    ensures EstimateBits(e.mode, |e.data|) + 4 + LengthIndicator(e.mode, v) <= EstimateEntry(e, u)
  {
    hide EstimateBits, Pow2, CeilDiv, Product;
    ClassZero(e.mode);
    CeilOne(|e.data|, Pow2(LengthIndicator(e.mode, u)));
    ProductMonotone(1, CeilDiv(|e.data|, Pow2(LengthIndicator(e.mode, u))), 4 + LengthIndicator(e.mode, u));
    ProductStep(0, 4 + LengthIndicator(e.mode, u));
  }

  lemma {:induction false} AllAdmitted(es: seq<Entry>, u: nat, v: nat, free: nat)
    requires AllChecked(es) && AllValid(es) && v >= 1 && SizeClass(v) <= SizeClass(u) && EstimateAll(es, u) <= free
    requires free <= if v <= 9 then 1856 else if v <= 26 then 10960 else 23648
    ensures |EncodeAll(es, v)| <= EstimateAll(es, u)
  {
    hide ModeData, EncodeEntry, EstimateEntry, SizeClass;
    if es != [] {
      EntryAdmitted(es[0], u, v, free);
      AllAdmitted(es[1..], u, v, free);
    }
  }

  // ---- The version that the estimates ask for ----

  /** The estimate that decides: for the smallest class of versions, from bottom to top, whose
      capacity the estimates so far do not exceed. */
  function Deciding(b: PerClass, level: Level): nat {
    if b.c0 <= Cap(9, level) then b.c0
    else if b.c0 <= Cap(26, level) && b.c1 <= Cap(26, level) then b.c1
    else b.c2
  }

  /** The result of the estimation, from the three estimates alone. */
  function Estimated(b: PerClass, level: Level): (v: nat)
    ensures v <= VERSION_MAX
  {
    if b.c0 > Cap(VERSION_MAX, level) || b.c2 > Cap(VERSION_MAX, level) then 0
    else VersionFor(Deciding(b, level), level)
  }

  lemma EstimateRound(es: seq<Entry>, level: Level, prev: nat)
    requires AllChecked(es) && AllValid(es) && prev <= VERSION_MAX
    ensures var v := VersionFor(Estimates(es).At(prev), level);
            EstimateFrom(es, level, prev) == if v == 0 then 0 else if v > prev then EstimateFrom(es, level, v) else v
  {
    hide MinVersion, EstimateAll, EncodeAll, AllChecked, AllValid;
    ClassOf(es, prev);
  }

  /** Three comparisons of a number of bits with the largest versions of each class. */
  lemma ClassFor(bits: nat, level: Level)
    ensures var v := VersionFor(bits, level);
            && (v == 0 <==> bits > Cap(VERSION_MAX, level))
            && (1 <= v <= 9 <==> bits <= Cap(9, level))
            && (1 <= v <= 26 <==> bits <= Cap(26, level))
  {
    hide Cap, VersionFor;
    VersionForMeaning(bits, level, 9); VersionForMeaning(bits, level, 26); VersionForMeaning(bits, level, VERSION_MAX);
  }

  /** The estimation stops where the estimate does not change any more. */
  lemma EstimateSettles(es: seq<Entry>, level: Level, prev: nat)
    requires AllChecked(es) && AllValid(es) && prev <= VERSION_MAX
    ensures var v := VersionFor(Estimates(es).At(prev), level);
            v <= prev || SizeClass(v) == SizeClass(prev) ==> EstimateFrom(es, level, prev) == v
  {
    hide Estimates, EstimateFrom, AllChecked, AllValid, VersionFor, SizeClass;
    EstimateRound(es, level, prev);
    var v := VersionFor(Estimates(es).At(prev), level);
    if v > prev { EstimateRound(es, level, v); }
  }

  /** Estimates that start above version 26. */
  lemma EstimateLarge(es: seq<Entry>, level: Level)
    requires AllChecked(es) && AllValid(es) && Estimates(es).c0 > Cap(26, level)
    ensures var b := Estimates(es);
            EstimateFrom(es, level, 0) == if b.c0 > Cap(VERSION_MAX, level) then 0 else VersionFor(b.c2, level)
  {
    hide Estimates, EstimateFrom, AllChecked, AllValid, Cap, VersionFor;
    var v0 := VersionFor(Estimates(es).c0, level);
    ClassFor(Estimates(es).c0, level);
    EstimateRound(es, level, 0);
    if v0 != 0 { EstimateSettles(es, level, v0); }
  }

  /** Estimates that start in versions 10 to 26. */
  lemma EstimateMedium(es: seq<Entry>, level: Level)
    requires AllChecked(es) && AllValid(es) && Cap(9, level) < Estimates(es).c0 <= Cap(26, level)
    ensures var b := Estimates(es);
            && b.c2 <= Cap(VERSION_MAX, level)
            && EstimateFrom(es, level, 0) == VersionFor(if b.c1 <= Cap(26, level) then b.c1 else b.c2, level)
  {
    hide Estimates, EstimateFrom, AllChecked, AllValid, Cap, VersionFor;
    var b := Estimates(es);
    assert b.c1 <= Cap(VERSION_MAX, level) && b.c2 <= Cap(VERSION_MAX, level) by { BothWithin(es); CapFacts(level); }
    var v0, v1 := VersionFor(b.c0, level), VersionFor(b.c1, level);
    ClassFor(b.c0, level);
    EstimateRound(es, level, 0);
    EstimateRound(es, level, v0);
    ClassFor(b.c1, level);
    if v1 <= 26 { EstimateSettles(es, level, v0); } else { EstimateSettles(es, level, v1); }
  }

  lemma EstimateIs(es: seq<Entry>, level: Level)
    requires AllChecked(es) && AllValid(es)
    ensures EstimateFrom(es, level, 0) == Estimated(Estimates(es), level)
  {
    hide Estimates, EstimateFrom, AllChecked, AllValid, Cap, VersionFor;
    CapFacts(level);
    ClassFor(Estimates(es).c2, level);
    if Estimates(es).c0 > Cap(26, level) {
      EstimateLarge(es, level);
    } else if Estimates(es).c0 > Cap(9, level) {
      EstimateMedium(es, level);
    } else {
      BothWithin(es);
      ClassFor(Estimates(es).c0, level);
      EstimateSettles(es, level, 0);
    }
  }

  /** Whatever the estimates ask for does hold the message. */
  lemma EstimateHolds(es: seq<Entry>, level: Level)
    requires AllChecked(es) && AllValid(es)
    ensures var e := EstimateFrom(es, level, 0); e != 0 ==> Fits(es, level, e)
  {
    hide AllChecked, AllValid, Cap, VersionFor, EstimateAll, EncodeAll, EstimateFrom;
    EstimateIs(es, level);
    var b, e := Estimates(es), EstimateFrom(es, level, 0);
    ClassFor(b.c0, level); ClassFor(b.c1, level); ClassFor(b.c2, level);
    if e != 0 {
      var u := if e == VersionFor(b.c2, level) then 27 else if e == VersionFor(b.c1, level) && e <= 26 then 10 else 0;
      VersionForMeaning(b.At(u), level, e);
      CapFacts(level);
      CapMonotone(e, if e <= 9 then 9 else if e <= 26 then 26 else VERSION_MAX, level);
      AllAdmitted(es, u, e, Cap(e, level));
      CapIs(e, level);
    }
  }

  lemma CapIs(version: nat, level: Level)
    requires version <= VERSION_MAX
    ensures Cap(version, level) == 8 * DataLength(version, level)
  {}

  // ---- When there is a version ----

  lemma FitsBits(es: seq<Entry>, level: Level, v: nat)
    requires AllChecked(es) && AllValid(es)
    ensures Fits(es, level, v) <==> 1 <= v <= VERSION_MAX && Lengths(es).At(v) <= Cap(v, level)
  {
    hide DataLength, EncodeAll, AllChecked, AllValid;
    ClassOf(es, v);
  }

  lemma ConvertRound(es: seq<Entry>, level: Level, version: nat)
    requires AllChecked(es) && AllValid(es) && version <= VERSION_MAX
    ensures var v := VersionFor(Lengths(es).At(version), level);
            ConvertFrom(es, level, version) == if v == 0 then 0 else if v > version then ConvertFrom(es, level, v) else version
  {
    hide MinVersion, EncodeAll, AllChecked, AllValid;
    ClassOf(es, version);
  }

  /** If any version holds the message, version 40 does. */
  lemma LargestFits(es: seq<Entry>, level: Level, v: nat)
    requires AllChecked(es) && AllValid(es) && Fits(es, level, v)
    ensures Fits(es, level, VERSION_MAX)
  {
    hide Lengths, AllChecked, AllValid, Cap, Fits;
    FitsBits(es, level, v); FitsBits(es, level, VERSION_MAX);
    BothWithin(es);
    CapFacts(level);
    CapMonotone(v, if v <= 26 then 26 else VERSION_MAX, level);
  }

  /** The retry loop ends with a version exactly when its first round finds one and the largest
      version holds the message. */
  lemma {:induction false} ConvertExists(es: seq<Entry>, level: Level, version: nat)
    requires AllChecked(es) && AllValid(es) && version <= VERSION_MAX
    ensures ConvertFrom(es, level, version) != 0
       <==> Lengths(es).At(version) <= Cap(VERSION_MAX, level) && Fits(es, level, VERSION_MAX)
    decreases VERSION_MAX - version
  {
    hide Lengths, AllChecked, AllValid, Cap, Fits, VersionFor, ConvertFrom;
    ConvertRound(es, level, version);
    ClassFor(Lengths(es).At(version), level);
    FitsBits(es, level, VERSION_MAX);
    var v := VersionFor(Lengths(es).At(version), level);
    if v != 0 {
      if v > version {
        ConvertExists(es, level, v);
        BothWithin(es);
        CapFacts(level);
      } else {
        VersionForMeaning(Lengths(es).At(version), level, version);
        FitsBits(es, level, version);
        LargestFits(es, level, version);
      }
    }
  }

  /** Whether a symbol can be made for a requested version: the message fits into version 40, and
      either the estimates for the smallest and the largest versions are within its capacity, or the
      encoding for the requested version is. */
  ghost predicate Encodable(es: seq<Entry>, level: Level, requested: nat)
    requires AllValid(es) && requested <= VERSION_MAX
  {
    var c := Cap(VERSION_MAX, level);
    && |EncodeAll(es, VERSION_MAX)| <= c
    && ((EstimateAll(es, 0) <= c && EstimateAll(es, 27) <= c) || |EncodeAll(es, requested)| <= c)
  }

  /** A version is found exactly for an encodable message. */
  lemma FinalExists(es: seq<Entry>, level: Level, requested: nat)
    requires AllChecked(es) && AllValid(es) && requested <= VERSION_MAX
    ensures FinalVersion(es, level, requested) != 0 <==> Encodable(es, level, requested)
  {
    hide AllChecked, AllValid, Cap, Fits, VersionFor, ConvertFrom, EstimateFrom, EncodeAll, EstimateAll;
    EstimateIs(es, level);
    EstimateHolds(es, level);
    BothWithin(es);
    CapFacts(level);
    ClassOf(es, requested); ClassOf(es, VERSION_MAX);
    FitsBits(es, level, VERSION_MAX);
    var b, e := Estimates(es), EstimateFrom(es, level, 0);
    ClassFor(b.c0, level); ClassFor(b.c1, level); ClassFor(b.c2, level);
    ConvertExists(es, level, if e > requested then e else requested);
    if e != 0 {
      LargestFits(es, level, e);
      FitsBits(es, level, e);
      CapMonotone(e, if e <= 9 then 9 else if e <= 26 then 26 else VERSION_MAX, level);
    }
  }

  lemma FitsEncodable(es: seq<Entry>, level: Level, v: nat)
    requires AllChecked(es) && AllValid(es) && Fits(es, level, v)
    ensures v <= VERSION_MAX && Encodable(es, level, v) && Encodable(es, level, VERSION_MAX)
  {
    hide AllChecked, AllValid, Cap, Fits, EncodeAll, EstimateAll;
    FitsBits(es, level, v); FitsBits(es, level, VERSION_MAX);
    ClassOf(es, v); ClassOf(es, VERSION_MAX);
    LargestFits(es, level, v);
    CapMonotone(v, VERSION_MAX, level);
  }

  /** Requesting the largest version always finds a version if there is one, and requesting a
      version that holds the message finds one as well. */
  lemma RequestFits(es: seq<Entry>, level: Level)
    requires AllChecked(es)
    ensures AllValid(es)
    ensures FinalVersion(es, level, VERSION_MAX) != 0 <==> exists v: nat :: Fits(es, level, v)
    ensures forall v: nat :: Fits(es, level, v) ==> FinalVersion(es, level, v) != 0
  {
    hide AllChecked, AllValid, Fits, FinalVersion, Encodable;
    CheckedValid(es);
    FinalVersionFits(es, level, VERSION_MAX);
    FinalExists(es, level, VERSION_MAX);
    forall v: nat | Fits(es, level, v)
      ensures v <= VERSION_MAX && FinalVersion(es, level, v) != 0 && Encodable(es, level, VERSION_MAX)
    {
      FitsEncodable(es, level, v);
      FinalExists(es, level, v);
    }
  }

  // ---- When the version is the least one ----

  function Max(a: nat, b: nat): nat { if a < b then b else a }

  /** The version that is chosen when none is requested, from the estimates and the lengths. */
  function Chosen(b: PerClass, a: PerClass, level: Level): nat {
    var c := Cap(VERSION_MAX, level);
    if Estimated(b, level) != 0 then Estimated(b, level)
    else if a.c0 <= c && a.c2 <= c then Max(VersionFor(a.c0, level), VersionFor(a.c2, level))
    else 0
  }

  /** The least version that holds a message, from its lengths; 0 if there is none. */
  function LeastFit(a: PerClass, level: Level): nat {
    if a.c0 <= Cap(9, level) then VersionFor(a.c0, level)
    else if a.c1 <= Cap(26, level) then Max(10, VersionFor(a.c1, level))
    else if a.c2 <= Cap(VERSION_MAX, level) then Max(27, VersionFor(a.c2, level))
    else 0
  }

  /** From a version on, one that holds the message, and no smaller one does; or 0 if none does. */
  ghost predicate IsLeast(es: seq<Entry>, level: Level, from: nat, v: nat)
    requires AllValid(es)
  {
    && (v != 0 ==> from <= v && Fits(es, level, v))
    && forall u: nat :: from <= u && Fits(es, level, u) ==> v != 0 && v <= u
  }

  lemma LeastFitBelow(a: PerClass, level: Level, u: nat)
    requires 1 <= u <= VERSION_MAX && a.At(u) <= Cap(u, level)
    ensures 1 <= LeastFit(a, level) <= u
  {
    hide Cap, VersionFor;
    ClassFor(a.c0, level); ClassFor(a.c1, level); ClassFor(a.c2, level);
    VersionForMeaning(a.At(u), level, u);
    CapMonotone(u, if u <= 9 then 9 else if u <= 26 then 26 else VERSION_MAX, level);
  }

  lemma LeastFitHolds(a: PerClass, level: Level)
    ensures var v := LeastFit(a, level); v != 0 ==> 1 <= v <= VERSION_MAX && a.At(v) <= Cap(v, level)
  {
    hide Cap, VersionFor;
    ClassFor(a.c0, level); ClassFor(a.c1, level); ClassFor(a.c2, level);
    var v := LeastFit(a, level);
    if v != 0 { VersionForMeaning(a.At(v), level, v); }
  }

  lemma LeastFitLeast(es: seq<Entry>, level: Level)
    requires AllChecked(es) && AllValid(es)
    ensures IsLeast(es, level, 0, LeastFit(Lengths(es), level))
  {
    hide Fits, Lengths, AllChecked, AllValid, Cap, VersionFor, LeastFit;
    var v := LeastFit(Lengths(es), level);
    LeastFitHolds(Lengths(es), level);
    FitsBits(es, level, v);
    forall u: nat | Fits(es, level, u) ensures 1 <= v <= u {
      FitsBits(es, level, u);
      LeastFitBelow(Lengths(es), level, u);
    }
  }

  lemma LeastUnique(es: seq<Entry>, level: Level, u: nat, v: nat)
    requires AllValid(es) && IsLeast(es, level, 0, u)
    ensures IsLeast(es, level, 0, v) <==> u == v
  {
    hide Fits, AllValid;
  }

  /** After a failed estimate the retry loop needs at most two rounds. */
  lemma ChosenIs(es: seq<Entry>, level: Level)
    requires AllChecked(es) && AllValid(es)
    ensures FinalVersion(es, level, 0) == Chosen(Estimates(es), Lengths(es), level)
  {
    hide Estimates, Lengths, EstimateFrom, ConvertFrom, AllChecked, AllValid, Cap, VersionFor, Fits;
    EstimateIs(es, level);
    EstimateHolds(es, level);
    var b, a, e := Estimates(es), Lengths(es), EstimateFrom(es, level, 0);
    BothWithin(es);
    CapFacts(level);
    ConvertRound(es, level, e);
    if e != 0 {
      FitsBits(es, level, e);
      VersionForMeaning(a.At(e), level, e);
    } else {
      ClassFor(a.c0, level); ClassFor(a.c2, level); ClassFor(b.c0, level); ClassFor(b.c2, level);
      ClassFor(b.c1, level);
      var v, w := VersionFor(a.c0, level), VersionFor(a.c2, level);
      if v != 0 {
        ConvertRound(es, level, v);
        if w > v { ConvertRound(es, level, w); }
      }
    }
  }

  /** The chosen and the least version, both in closed form. */
  lemma LeastClosed(es: seq<Entry>, level: Level)
    requires AllChecked(es) && AllValid(es)
    ensures IsLeast(es, level, 0, FinalVersion(es, level, 0))
       <==> Chosen(Estimates(es), Lengths(es), level) == LeastFit(Lengths(es), level)
  {
    hide Estimates, Lengths, FinalVersion, AllChecked, AllValid, Chosen, LeastFit, IsLeast;
    ChosenIs(es, level);
    LeastFitLeast(es, level);
    LeastUnique(es, level, LeastFit(Lengths(es), level), FinalVersion(es, level, 0));
  }

  // ---- Every requested version ----

  lemma EntryWider(e: Entry)
    requires Check(e) && Base(e) <= 10960
    ensures ModeData(e.mode, e.data) && |EncodeEntry(e, 10)| <= |EncodeEntry(e, 27)|
  {
    hide ModeData, EncodeEntry, EncodeChunk, EstimateBits, TooLong;
    if e.mode == Structure {
      HeaderLength(e, 10); HeaderLength(e, 27);
    } else {
      PayloadFits(e, 10, 10960); PayloadFits(e, 27, 10960);
      OneSegment(e, 10); OneSegment(e, 27);
      ChunkLength(e, 10); ChunkLength(e, 27);
    }
  }

  /** A message that is not too long for version 26 does not get shorter with wider fields. */
  lemma {:induction false} AllWider(es: seq<Entry>)
    requires AllChecked(es) && AllValid(es) && BaseAll(es) <= 10960
    ensures |EncodeAll(es, 10)| <= |EncodeAll(es, 27)|
  {
    hide ModeData, EncodeEntry, Base;
    if es != [] {
      EntryWider(es[0]);
      AllWider(es[1..]);
    }
  }

  lemma LengthsGrow(es: seq<Entry>, level: Level)
    requires AllChecked(es) && AllValid(es) && Lengths(es).c0 <= Cap(26, level)
    ensures Lengths(es).c1 <= Lengths(es).c2
  {
    hide AllChecked, AllValid, EncodeAll, EstimateAll, BaseAll, Cap;
    CapFacts(level);
    AllBounds(es, 0);
    AllWider(es);
  }

  /** The retry loop passes a version that holds the message exactly if the length it starts with
      does not fit there. */
  lemma {:induction false} ConvertReaches(es: seq<Entry>, level: Level, version: nat, u: nat)
    requires AllChecked(es) && AllValid(es) && version <= u && Fits(es, level, u)
    ensures u <= VERSION_MAX
    ensures 1 <= ConvertFrom(es, level, version) <= u <==> Lengths(es).At(version) <= Cap(u, level)
    decreases VERSION_MAX - version
  {
    hide Lengths, AllChecked, AllValid, Cap, Fits, VersionFor, ConvertFrom;
    FitsBits(es, level, u);
    ConvertRound(es, level, version);
    ConvertFits(es, level, version);
    var a := Lengths(es);
    var v := VersionFor(a.At(version), level);
    VersionForMeaning(a.At(version), level, u);
    ClassFor(a.At(version), level);
    if version < v {
      ConvertFits(es, level, v);
      if v <= u {
        if a.c0 <= Cap(26, level) { LengthsGrow(es, level); }
        ConvertReaches(es, level, v, u);
        CapMonotone(v, u, level);
        VersionForMeaning(a.At(version), level, v);
      }
    }
  }

  /** The number of bits by which versions are refused: the estimate that decides, if it asks for more
      than the request, or else the length for the requested version. */
  function Needed(b: PerClass, a: PerClass, level: Level, requested: nat): nat {
    if Estimated(b, level) > requested then Deciding(b, level) else a.At(requested)
  }

  /** A version of at least the requested one is passed over although it holds the message. */
  ghost predicate PassesOver(b: PerClass, a: PerClass, level: Level, requested: nat, u: nat)
    requires u <= VERSION_MAX
  {
    requested <= u && 1 <= u && a.At(u) <= Cap(u, level) < Needed(b, a, level, requested)
  }

  lemma Passed(es: seq<Entry>, level: Level, requested: nat, u: nat)
    requires AllChecked(es) && AllValid(es) && requested <= u && Fits(es, level, u)
    ensures u <= VERSION_MAX
    ensures 1 <= FinalVersion(es, level, requested) <= u
       <==> !PassesOver(Estimates(es), Lengths(es), level, requested, u)
  {
    hide Estimates, Lengths, EstimateFrom, ConvertFrom, AllChecked, AllValid, Cap, VersionFor, Fits, Deciding;
    FitsBits(es, level, u);
    EstimateIs(es, level);
    EstimateHolds(es, level);
    var e := EstimateFrom(es, level, 0);
    if e > requested {
      VersionForMeaning(Deciding(Estimates(es), level), level, u);
      HoldsStays(es, level, e);
    } else {
      ConvertReaches(es, level, requested, u);
    }
  }

  lemma HoldsStays(es: seq<Entry>, level: Level, v: nat)
    requires AllChecked(es) && AllValid(es) && Fits(es, level, v)
    ensures v <= VERSION_MAX && ConvertFrom(es, level, v) == v
  {
    hide MinVersion, EncodeAll, AllValid, AllChecked;
    FitsMeaning(es, level, v);
  }

  /** For every message and requested version: the version of the symbol is the least one, from the
      requested one on, that holds the message (and there is none when none does), if and only if
      the capacity of no version that holds it is below the number of bits by which versions are
      refused. */
  lemma LeastExactly(es: seq<Entry>, level: Level, requested: nat)
    requires AllChecked(es) && AllValid(es) && requested <= VERSION_MAX
    ensures IsLeast(es, level, requested, FinalVersion(es, level, requested))
       <==> forall u :: 0 <= u <= VERSION_MAX ==> !PassesOver(Estimates(es), Lengths(es), level, requested, u)
  {
    hide Estimates, Lengths, FinalVersion, AllChecked, AllValid, Fits, PassesOver;
    FinalVersionFits(es, level, requested);
    var v := FinalVersion(es, level, requested);
    forall u: nat | u <= VERSION_MAX
      ensures PassesOver(Estimates(es), Lengths(es), level, requested, u)
         <==> requested <= u && Fits(es, level, u) && !(1 <= v <= u)
    {
      if requested <= u && Fits(es, level, u) {
        Passed(es, level, requested, u);
      } else {
        NotPassed(es, level, requested, u);
      }
    }
    FitsAtMost(es, level);
  }

  lemma FitsAtMost(es: seq<Entry>, level: Level)
    requires AllValid(es)
    ensures forall u: nat :: Fits(es, level, u) ==> 1 <= u <= VERSION_MAX
  {
    hide EncodeAll, DataLength, AllValid;
  }

  lemma NotPassed(es: seq<Entry>, level: Level, requested: nat, u: nat)
    requires AllChecked(es) && AllValid(es) && u <= VERSION_MAX && !(requested <= u && Fits(es, level, u))
    ensures !PassesOver(Estimates(es), Lengths(es), level, requested, u)
  {
    hide Estimates, Lengths, AllChecked, AllValid, Cap, Fits, Needed;
    FitsBits(es, level, u);
  }

  /** A version that holds the message is requested: it is exceeded if and only if the estimates ask
      for more, and then they are followed. */
  lemma RequestExactly(es: seq<Entry>, level: Level, v: nat)
    requires AllChecked(es) && AllValid(es) && Fits(es, level, v)
    ensures v <= VERSION_MAX
    ensures FinalVersion(es, level, v) == v <==> Estimated(Estimates(es), level) <= v
    ensures FinalVersion(es, level, v) != v ==> FinalVersion(es, level, v) == Estimated(Estimates(es), level)
  {
    hide Estimates, Estimated, EstimateFrom, ConvertFrom, AllChecked, AllValid, Fits;
    EstimateIs(es, level);
    EstimateHolds(es, level);
    HoldsStays(es, level, v);
    var e := EstimateFrom(es, level, 0);
    if e != 0 { HoldsStays(es, level, e); }
  }

  // ---- Messages whose Kanji entries are short ----

  /** Kanji entries for which the estimate is not too high. */
  ghost predicate ShortKanji(es: seq<Entry>) {
    forall i :: 0 <= i < |es| && es[i].mode == Kanji ==> |es[i].data| <= 256
  }

  lemma EntryNotBelow(e: Entry, version: nat)
    requires Check(e) && (e.mode == Kanji ==> |e.data| <= 256)
    ensures ModeData(e.mode, e.data) && EstimateEntry(e, version) <= |EncodeEntry(e, version)|
  {
    hide ModeData, EncodeEntry, EstimateEntry;
    if e.mode == Structure {
      HeaderLength(e, version);
    } else if e.mode == Kanji {
      SmallPowers();
      EstimateExact(e, version);
    } else {
      EstimateAgainstLength(e, version);
    }
  }

  lemma {:induction false} NotBelow(es: seq<Entry>, version: nat)
    requires AllChecked(es) && AllValid(es) && ShortKanji(es)
    ensures EstimateAll(es, version) <= |EncodeAll(es, version)|
  {
    hide ModeData, EncodeEntry, EstimateEntry;
    if es != [] {
      EntryNotBelow(es[0], version);
      NotBelow(es[1..], version);
    }
  }

  /** The smallest group that is counted at all: an entry within it is estimated as one segment. */
  lemma OneGroup(e: Entry, version: nat)
    requires e.mode != Structure && e.data != [] && |e.data| <= Pow2(LengthIndicator(e.mode, version))
    ensures EstimateEntry(e, version) == EstimateBits(e.mode, |e.data|) + 4 + LengthIndicator(e.mode, version)
  {
    hide EstimateBits, Pow2, CeilDiv, Product, LengthIndicator;
    ClassZero(e.mode);
    CeilOne(|e.data|, Pow2(LengthIndicator(e.mode, version)));
    ProductStep(0, 4 + LengthIndicator(e.mode, version));
  }

  /** An entry whose payload is within the largest version of a class is one group there. */
  lemma PayloadGroup(e: Entry, v: nat, free: nat)
    requires e.mode != Structure && EstimateBits(e.mode, |e.data|) <= free && (e.mode == Kanji ==> |e.data| <= 256)
    requires free <= if v <= 9 then 1856 else if v <= 26 then 10960 else 23648
    ensures |e.data| <= Pow2(LengthIndicator(e.mode, v))
  {
    SmallPowers();
  }

  lemma PayloadPart(e: Entry, version: nat)
    requires e.mode != Structure
    ensures EstimateBits(e.mode, |e.data|) <= EstimateEntry(e, version)
  {}

  /** What is estimated to fit into a class is estimated as no less for the next one. */
  lemma EntryGrows(e: Entry, u: nat, v: nat)
    requires Check(e) && (e.mode == Kanji ==> |e.data| <= 256) && SizeClass(u) <= SizeClass(v)
    requires EstimateEntry(e, v) <= if u <= 9 then 1856 else if u <= 26 then 10960 else 23648
    ensures EstimateEntry(e, u) <= EstimateEntry(e, v)
  {
    hide ModeData, EstimateBits, Pow2, CeilDiv, Product;
    if e.mode != Structure {
      PayloadPart(e, v);
      hide EstimateEntry;
      PayloadGroup(e, u, EstimateEntry(e, v));
      OneGroup(e, u);
      NarrowerHeader(e, v, u);
    }
  }

  lemma {:induction false} EstimateGrows(es: seq<Entry>, u: nat, v: nat)
    requires AllChecked(es) && ShortKanji(es) && SizeClass(u) <= SizeClass(v)
    requires EstimateAll(es, v) <= if u <= 9 then 1856 else if u <= 26 then 10960 else 23648
    ensures EstimateAll(es, u) <= EstimateAll(es, v)
  {
    hide ModeData, EstimateEntry, SizeClass;
    if es != [] {
      EntryGrows(es[0], u, v);
      EstimateGrows(es[1..], u, v);
    }
  }

  /** Groups for the smallest versions cost less than one part in 170 of the message. */
  lemma EntrySlope(e: Entry)
    requires Check(e) && (e.mode == Kanji ==> |e.data| <= 256) && EstimateEntry(e, 10) <= 10960
    ensures 512 * EstimateEntry(e, 0) <= 515 * EstimateEntry(e, 10)
  {
    hide ModeData, Pow2, CeilDiv, Product;
    if e.mode != Structure {
      PayloadPart(e, 10);
      PayloadGroup(e, 10, 10960);
      OneGroup(e, 10);
      SmallPowers();
      GroupSlope(|e.data|, Pow2(LengthIndicator(e.mode, 0)), 4 + LengthIndicator(e.mode, 0));
    }
  }

  lemma GroupSlope(n: nat, p: nat, h: nat)
    requires 1 <= n && 1 <= p
    ensures p * Product(CeilDiv(n, p), h) <= h * (n + p)
    ensures n <= p ==> Product(CeilDiv(n, p), h) == h
  {
    CeilOne(n, p);
    var q := CeilDiv(n, p);
    assert q * p <= n + p - 1;
    TimesLe(h, q * p, n + p);
    assert p * (q * h) == h * (q * p);
  }

  lemma {:induction false} SlopeAll(es: seq<Entry>)
    requires AllChecked(es) && ShortKanji(es) && EstimateAll(es, 10) <= 10960
    ensures 512 * EstimateAll(es, 0) <= 515 * EstimateAll(es, 10)
  {
    hide ModeData, EstimateEntry;
    if es != [] {
      EntrySlope(es[0]);
      SlopeAll(es[1..]);
    }
  }

  /** The message fits into version 26 but not, with the wider fields of version 27, into as many
      bits; and its estimate for the smallest versions skips version 26. */
  ghost predicate MissesClass(b: PerClass, level: Level) {
    b.c1 <= Cap(26, level) < b.c0 && Cap(26, level) < b.c2
  }

  /** The message fits into version 40, but not with the smaller groups of version 9. */
  ghost predicate MissesLargest(b: PerClass, level: Level) {
    b.c2 <= Cap(VERSION_MAX, level) < b.c0
  }

  /** With short Kanji entries, lengths that fit are estimated exactly. */
  lemma ShortExact(es: seq<Entry>, level: Level, v: nat)
    requires AllChecked(es) && AllValid(es) && ShortKanji(es) && 1 <= v <= VERSION_MAX
    ensures Lengths(es).At(v) <= Cap(v, level) <==> Estimates(es).At(v) <= Cap(v, level)
    ensures Lengths(es).At(v) <= Cap(v, level) ==> Lengths(es).At(v) == Estimates(es).At(v)
    ensures Estimates(es).At(v) <= Lengths(es).At(v)
  {
    hide AllChecked, AllValid, ShortKanji, EstimateAll, EncodeAll, Cap;
    ClassOf(es, v);
    NotBelow(es, v);
    if EstimateAll(es, v) <= Cap(v, level) {
      CapFacts(level);
      CapMonotone(v, if v <= 9 then 9 else if v <= 26 then 26 else VERSION_MAX, level);
      AllAdmitted(es, v, v, Cap(v, level));
    }
  }

  ghost predicate Grows(b: PerClass) {
    && (b.c1 <= 1856 ==> b.c0 <= b.c1) && (b.c2 <= 1856 ==> b.c0 <= b.c2)
    && (b.c2 <= 10960 ==> b.c1 <= b.c2) && (b.c1 <= 10960 ==> 512 * b.c0 <= 515 * b.c1)
  }

  lemma ShortGrows(es: seq<Entry>)
    requires AllChecked(es) && ShortKanji(es)
    ensures Grows(Estimates(es))
  {
    hide AllChecked, ShortKanji, EstimateAll;
    var b := Estimates(es);
    if b.c1 <= 1856 { EstimateGrows(es, 0, 10); }
    if b.c2 <= 1856 { EstimateGrows(es, 0, 27); }
    if b.c2 <= 10960 { EstimateGrows(es, 10, 27); }
    if b.c1 <= 10960 { SlopeAll(es); }
  }

  lemma SameLeast(a: PerClass, b: PerClass, level: Level)
    requires a.c0 <= Cap(9, level) || b.c0 <= Cap(9, level) ==> a.c0 == b.c0
    requires a.c1 <= Cap(26, level) || b.c1 <= Cap(26, level) ==> a.c1 == b.c1
    requires a.c2 <= Cap(VERSION_MAX, level) || b.c2 <= Cap(VERSION_MAX, level) ==> a.c2 == b.c2
    ensures LeastFit(a, level) == LeastFit(b, level)
  {
    hide Cap, VersionFor;
  }

  lemma Windows(b: PerClass, a: PerClass, base: nat, level: Level)
    requires Within(b, base) && Grows(b) && b.c0 <= a.c0 && b.c2 <= a.c2
    ensures Chosen(b, a, level) == LeastFit(b, level) <==> !MissesClass(b, level) && !MissesLargest(b, level)
  {
    hide Cap, VersionFor;
    CapFacts(level);
    ClassFor(b.c0, level); ClassFor(b.c1, level); ClassFor(b.c2, level);
    VersionForMeaning(b.c1, level, 25); VersionForMeaning(b.c2, level, 25);
  }

  /** If no Kanji entry is longer than 256 bytes, the version chosen when none is requested is the
      least one except in exactly two windows of lengths. */
  lemma LeastShort(es: seq<Entry>, level: Level)
    requires AllChecked(es) && AllValid(es) && ShortKanji(es)
    ensures IsLeast(es, level, 0, FinalVersion(es, level, 0))
       <==> !MissesClass(Estimates(es), level) && !MissesLargest(Estimates(es), level)
  {
    hide Estimates, Lengths, FinalVersion, AllChecked, AllValid, ShortKanji, Chosen, LeastFit, IsLeast;
    hide MissesClass, MissesLargest;
    hide Cap;
    LeastClosed(es, level);
    BothWithin(es);
    ShortGrows(es);
    ShortExact(es, level, 9); ShortExact(es, level, 26); ShortExact(es, level, VERSION_MAX);
    SameLeast(Lengths(es), Estimates(es), level);
    Windows(Estimates(es), Lengths(es), BaseAll(es), level);
  }

  /** If no Kanji entry is longer than 256 bytes, only a request for version 26 can be exceeded without
      need. */
  lemma RequestShort(es: seq<Entry>, level: Level, v: nat)
    requires AllChecked(es) && AllValid(es) && ShortKanji(es) && Fits(es, level, v)
    ensures v <= VERSION_MAX
    ensures FinalVersion(es, level, v) == v <==> !(v == 26 && MissesClass(Estimates(es), level))
  {
    hide Estimates, Lengths, Estimated, FinalVersion, AllChecked, AllValid, ShortKanji, MissesClass, Fits, Cap;
    FitsBits(es, level, v);
    RequestExactly(es, level, v);
    ShortExact(es, level, v);
    BothWithin(es);
    ShortGrows(es);
    EstimatedAbove(Estimates(es), BaseAll(es), level, v);
  }

  lemma EstimatedAbove(b: PerClass, base: nat, level: Level, v: nat)
    requires Within(b, base) && Grows(b) && 1 <= v <= VERSION_MAX && b.At(v) <= Cap(v, level)
    ensures Estimated(b, level) <= v <==> !(v == 26 && MissesClass(b, level))
  {
    hide Cap, VersionFor;
    CapFacts(level);
    CapMonotone(v, if v <= 9 then 9 else if v <= 25 then 25 else if v <= 26 then 26 else VERSION_MAX, level);
    if v >= 27 { CapMonotone(26, v, level); } else if v >= 10 { CapMonotone(9, v, level); }
    VersionForMeaning(Deciding(b, level), level, v); ClassFor(Deciding(b, level), level);
  }

  // ---- One entry ----

  lemma OneEstimate(e: Entry, version: nat)
    ensures EstimateAll([e], version) == EstimateEntry(e, version)
  {
    hide EstimateEntry;
    assert [e][1..] == [];
  }

  lemma One(e: Entry)
    requires Check(e)
    ensures AllChecked([e]) && AllValid([e])
    ensures Estimates([e]) == PerClass(EstimateEntry(e, 0), EstimateEntry(e, 10), EstimateEntry(e, 27))
    ensures Lengths([e]) == PerClass(|EncodeEntry(e, 0)|, |EncodeEntry(e, 10)|, |EncodeEntry(e, 27)|)
  {
    hide ModeData, EncodeEntry, EstimateEntry, EncodeAll, EstimateAll;
    OneEntry(e, 0); OneEntry(e, 10); OneEntry(e, 27);
    OneEstimate(e, 0); OneEstimate(e, 10); OneEstimate(e, 27);
  }

  /** The bits that n bytes of a mode need with the smallest length fields. */
  function SmallestFields(mode: Mode, n: nat): nat {
    match mode
    case Num => EstimateBitsNum(n) + 14 * CeilDiv(n, 1024)
    case An => EstimateBitsAn(n) + 13 * CeilDiv(n, 512)
    case Eight => EstimateBits8(n) + 12 * CeilDiv(n, 256)
    case Kanji => EstimateBitsKanji(n) + 12 * CeilDiv(n, 510)
    case Structure => STRUCTURE_HEADER_SIZE
  }

  lemma Groups(n: nat, p: nat, h: nat)
    requires 1 <= n && 1 <= p
    ensures Product(CeilDiv(n, p), h) == h * CeilDiv(n, p)
    ensures CeilDiv(n, p) >= 1
    ensures n <= p ==> CeilDiv(n, p) == 1
    ensures n > p ==> CeilDiv(n, p) >= 2
  {
    CeilOne(n, p);
  }

  lemma EstimateOne(e: Entry)
    requires Check(e) && e.mode in {Num, An, Eight}
    ensures EstimateEntry(e, 0) == SmallestFields(e.mode, |e.data|)
  {
    hide ModeData, EstimateBitsNum, EstimateBitsAn, CeilDiv, Product;
    SmallPowers();
    var p := Pow2(LengthIndicator(e.mode, 0));
    Groups(|e.data|, p, 4 + LengthIndicator(e.mode, 0));
  }

  /** One entry without Kanji, against the estimates for one group. */
  lemma OneGroupEach(e: Entry, level: Level)
    requires Check(e) && e.mode in {Num, An, Eight}
    ensures var p, b := EstimateBits(e.mode, |e.data|), Estimates([e]);
            && b.c0 == SmallestFields(e.mode, |e.data|)
            && p + 4 + LengthIndicator(e.mode, 10) <= b.c1 && p + 4 + LengthIndicator(e.mode, 27) <= b.c2
            && (p + 4 + LengthIndicator(e.mode, 10) <= 10960 ==> b.c1 == p + 4 + LengthIndicator(e.mode, 10))
            && (p + 4 + LengthIndicator(e.mode, 27) <= 23648 ==> b.c2 == p + 4 + LengthIndicator(e.mode, 27))
  {
    hide ModeData, EstimateBits, Pow2, CeilDiv, Product, LengthIndicator, Estimates, SmallestFields;
    One(e);
    EstimateOne(e);
    NarrowerHeader(e, 10, 10); NarrowerHeader(e, 27, 27);
    hide EstimateEntry;
    var p := EstimateBits(e.mode, |e.data|);
    if p + 4 + LengthIndicator(e.mode, 10) <= 10960 { PayloadGroup(e, 10, 10960); OneGroup(e, 10); }
    if p + 4 + LengthIndicator(e.mode, 27) <= 23648 { PayloadGroup(e, 27, 23648); OneGroup(e, 27); }
  }

  /** The smallest fields save little when one group is enough, and cost more from two groups on. */
  lemma FieldsAgainst(mode: Mode, n: nat)
    requires 1 <= n && mode in {Num, An, Eight}
    ensures var p, s := EstimateBits(mode, n), SmallestFields(mode, n);
            && p + 12 <= s
            && (s <= 4500 || p + 4 + LengthIndicator(mode, 27) <= s)
            && (p + 4 + LengthIndicator(mode, 27) > 4768 ==> p + 4 + LengthIndicator(mode, 27) <= s)
  {
    hide CeilDiv;
    Groups(n, 1024, 14); Groups(n, 512, 13); Groups(n, 256, 12);
  }

  /** The two windows of lengths, for one entry. */
  lemma OneEntryWindows(e: Entry, level: Level)
    requires Check(e) && e.mode in {Num, An, Eight}
    ensures var bits, h26, h27 := EstimateBits(e.mode, |e.data|), 4 + LengthIndicator(e.mode, 26), 4 + LengthIndicator(e.mode, 27);
            && (MissesClass(Estimates([e]), level) <==> bits + h26 <= Cap(26, level) < bits + h27)
            && (MissesLargest(Estimates([e]), level)
                <==> bits + h27 <= Cap(VERSION_MAX, level) < SmallestFields(e.mode, |e.data|))
  {
    hide ModeData, EstimateBits, Estimates, SmallestFields, Cap, Check;
    OneGroupEach(e, level);
    FieldsAgainst(e.mode, |e.data|) by { NotEmpty(e); }
    CapFacts(level);
  }

  /** One numeric, alphanumeric or 8-bit entry, no version requested: the least version is chosen
      except where version 26 is just large enough for its own length field and not for that of
      version 27, and where version 40 is large enough for one segment but not for the groups of
      the smallest versions. */
  lemma OneEntryLeast(e: Entry, level: Level)
    requires Check(e) && e.mode in {Num, An, Eight}
    ensures AllValid([e])
    ensures var bits, h26, h27 := EstimateBits(e.mode, |e.data|), 4 + LengthIndicator(e.mode, 26), 4 + LengthIndicator(e.mode, 27);
            IsLeast([e], level, 0, FinalVersion([e], level, 0))
            <==> !(bits + h26 <= Cap(26, level) < bits + h27)
                 && !(bits + h27 <= Cap(VERSION_MAX, level) < SmallestFields(e.mode, |e.data|))
  {
    hide EstimateBits, Estimates, LengthIndicator, SmallestFields, Cap, IsLeast, FinalVersion, AllValid, AllChecked, Check;
    hide MissesClass, MissesLargest, ShortKanji;
    One(e);
    NotShort(e);
    LeastShort([e], level);
    OneEntryWindows(e, level);
  }

  /** One numeric, alphanumeric or 8-bit entry that a requested version holds: the request is exceeded
      only for version 26, which is then just large enough, and by one version. */
  lemma OneEntryRequest(e: Entry, level: Level, v: nat)
    requires Check(e) && e.mode in {Num, An, Eight} && AllValid([e]) && Fits([e], level, v)
    ensures v <= VERSION_MAX
    ensures FinalVersion([e], level, v)
         == if v == 26 && Cap(26, level) < EstimateBits(e.mode, |e.data|) + 4 + LengthIndicator(e.mode, 27) then 27 else v
  {
    hide EstimateBits, Estimates, Lengths, LengthIndicator, SmallestFields, Cap, FinalVersion, AllValid, AllChecked, Check;
    hide MissesClass, MissesLargest, ShortKanji, Fits, Estimated;
    One(e);
    NotShort(e);
    RequestShort([e], level, v);
    FitsBits([e], level, v);
    if v == 26 {
      ShortExact([e], level, 26);
      OneAtWindow(e, level);
      RequestExactly([e], level, 26);
    }
  }

  lemma OneAtWindow(e: Entry, level: Level)
    requires Check(e) && e.mode in {Num, An, Eight} && Estimates([e]).c1 <= Cap(26, level)
    ensures var long := Cap(26, level) < EstimateBits(e.mode, |e.data|) + 4 + LengthIndicator(e.mode, 27);
            && (MissesClass(Estimates([e]), level) <==> long)
            && (long ==> Estimated(Estimates([e]), level) == 27)
  {
    hide EstimateBits, Estimates, LengthIndicator, SmallestFields, Cap, Check, VersionFor;
    OneEntryWindows(e, level);
    OneGroupEach(e, level);
    FieldsAgainst(e.mode, |e.data|) by { NotEmpty(e); }
    WiderField(e.mode);
    CapFacts(level);
    NextCap(level);
    var b := Estimates([e]);
    if MissesClass(b, level) {
      VersionForMeaning(b.c2, level, 26); VersionForMeaning(b.c2, level, 27);
      SmallestAtMost(e, level);
    }
  }

  lemma WiderField(mode: Mode)
    requires mode in {Num, An, Eight}
    ensures LengthIndicator(mode, 26) == LengthIndicator(mode, 10) <= LengthIndicator(mode, 27) <= LengthIndicator(mode, 10) + 2
  {}

  lemma NextCap(level: Level)
    ensures Cap(26, level) + 8 <= Cap(27, level)
  {
    hide DataLength;
    DataLengthGrows(26, level);
  }

  lemma SmallestAtMost(e: Entry, level: Level)
    requires Check(e) && e.mode in {Num, An, Eight} && Estimates([e]).c1 <= Cap(26, level)
    ensures Estimates([e]).c0 <= Cap(VERSION_MAX, level)
  {
    hide Estimates, Check, Cap;
    One(e);
    BothWithin([e]);
    CapFacts(level);
  }

  lemma NotEmpty(e: Entry)
    requires Check(e)
    ensures |e.data| >= 1
  {}

  /** If the smallest length fields fit into the largest version, so do the largest. */
  lemma SmallestThenLargest(e: Entry, level: Level)
    requires Check(e) && e.mode in {Num, An, Eight}
    ensures var b := Estimates([e]);
            b.c0 == SmallestFields(e.mode, |e.data|) && (b.c0 <= Cap(VERSION_MAX, level) ==> b.c2 <= Cap(VERSION_MAX, level))
  {
    hide ModeData, EstimateBits, Estimates, SmallestFields, Cap, Check;
    OneGroupEach(e, level);
    FieldsAgainst(e.mode, |e.data|) by { NotEmpty(e); }
    CapFacts(level);
  }

  /** One entry, no version requested: a version is found exactly when the largest version holds it
      with the smallest length fields. */
  lemma OneEntryExists(e: Entry, level: Level)
    requires Check(e) && e.mode in {Num, An, Eight}
    ensures AllValid([e])
    ensures FinalVersion([e], level, 0) != 0 <==> SmallestFields(e.mode, |e.data|) <= Cap(VERSION_MAX, level)
  {
    hide ModeData, EncodeAll, EstimateAll, SmallestFields, Cap, FinalVersion, AllChecked, AllValid, Check, ShortKanji;
    One(e);
    FinalExists([e], level, 0);
    SmallestThenLargest(e, level);
    NotShort(e);
    ShortExact([e], level, VERSION_MAX);
    ClassOf([e], VERSION_MAX);
    NotBelow([e], 0);
  }

  lemma NotShort(e: Entry)
    requires e.mode != Kanji
    ensures ShortKanji([e])
  {}

  // ---- One Kanji entry ----

  lemma CeilRange(n: nat, k: nat)
    requires 1 <= n && 1 <= k
    ensures k * (CeilDiv(n, k) - 1) < n <= k * CeilDiv(n, k) && CeilDiv(n, k) >= 1
  {
    CeilOne(n, k);
  }

  lemma KanjiClass(e: Entry, version: nat, p: nat)
    requires Check(e) && e.mode == Kanji && p == Pow2(LengthIndicator(Kanji, version)) && 2 <= p
    ensures ModeData(e.mode, e.data)
    ensures var n, h := |e.data|, 4 + LengthIndicator(Kanji, version);
            && EstimateEntry(e, version) == EstimateBitsKanji(n) + h * CeilDiv(n, p)
            && |EncodeEntry(e, version)| == EstimateBitsKanji(n) + h * CeilDiv(n, 2 * p - 2)
  {
    hide ModeData, EncodeEntry, EstimateBitsKanji, Pow2, CeilDiv, LengthIndicator, CutLoss;
    ClassZero(Kanji);
    EntryLength(e, version);
    LargestSegment(Kanji, version);
  }

  /** The estimates and lengths of n bytes, p bits, with the numbers of groups and segments. */
  ghost predicate KanjiSizes(n: nat, p: nat, b: PerClass, a: PerClass) {
    && 2 <= n && 2 * p == 13 * n
    && b == PerClass(p + 12 * CeilDiv(n, 256), p + 14 * CeilDiv(n, 1024), p + 16 * CeilDiv(n, 4096))
    && a == PerClass(p + 12 * CeilDiv(n, 510), p + 14 * CeilDiv(n, 2046), p + 16 * CeilDiv(n, 8190))
  }

  lemma KanjiSize(e: Entry)
    requires Check(e) && e.mode == Kanji
    ensures |e.data| >= 2 && 2 * EstimateBitsKanji(|e.data|) == 13 * |e.data|
  {
    KanjiEven(e.data);
  }

  /** The estimates and the lengths of one Kanji entry. */
  lemma KanjiOne(e: Entry)
    requires Check(e) && e.mode == Kanji
    ensures AllValid([e])
    ensures KanjiSizes(|e.data|, EstimateBitsKanji(|e.data|), Estimates([e]), Lengths([e]))
  {
    hide ModeData, EncodeEntry, EstimateEntry, EstimateBitsKanji, Pow2, CeilDiv, EncodeAll, EstimateAll;
    One(e);
    SmallPowers();
    KanjiSize(e);
    KanjiClass(e, 0, 256); KanjiClass(e, 10, 1024); KanjiClass(e, 27, 4096);
  }

  /** One Kanji entry, no version requested: a version is found exactly when the largest version
      holds it with the smallest length fields. */
  lemma KanjiExists(e: Entry, level: Level)
    requires Check(e) && e.mode == Kanji
    ensures AllValid([e])
    ensures FinalVersion([e], level, 0) != 0 <==> SmallestFields(Kanji, |e.data|) <= Cap(VERSION_MAX, level)
  {
    hide ModeData, EncodeAll, EstimateAll, EstimateBitsKanji, CeilDiv, Cap, FinalVersion, Check, AllChecked, AllValid;
    One(e);
    KanjiOne(e);
    var n := |e.data|;
    FinalExists([e], level, 0);
    ClassOf([e], VERSION_MAX);
    CapFacts(level);
    CeilRange(n, 256); CeilRange(n, 510); CeilRange(n, 4096); CeilRange(n, 8190);
  }

  lemma CapSteps(level: Level)
    ensures 3800 <= Cap(25, level) && Cap(25, level) + 288 <= Cap(26, level) && Cap(39, level) + 432 <= Cap(40, level)
  {}

  lemma SmallCaps(level: Level)
    ensures Cap(8, level) <= 1552 && if level == L then Cap(9, level) == 1856 else Cap(9, level) <= 1456
  {}

  /** Where one Kanji entry of n bytes does not get the least version: above 1024 bytes, where the
      version for one segment does not hold the two that are estimated; where version 26 is just
      large enough; and where version 40 is, but not with the smallest length fields. */
  ghost predicate KanjiMisses(n: nat, level: Level) {
    var p := EstimateBitsKanji(n);
    var v := VersionFor(p + 14, level);
    || (n > 1024 && 1 <= v <= 25 && p + 28 > Cap(v, level))
    || p + 14 <= Cap(26, level) < p + 16
    || p + 16 <= Cap(VERSION_MAX, level) < SmallestFields(Kanji, n)
  }

  lemma TinySizes(n: nat, p: nat, b: PerClass, a: PerClass)
    requires KanjiSizes(n, p, b, a) && n <= 256
    ensures b == a == PerClass(p + 12, p + 14, p + 16) && p <= 1664
  {
    hide CeilDiv;
    CeilRange(n, 256); CeilRange(n, 510); CeilRange(n, 1024); CeilRange(n, 2046); CeilRange(n, 4096); CeilRange(n, 8190);
  }

  lemma KanjiTiny(n: nat, p: nat, b: PerClass, a: PerClass, level: Level)
    requires KanjiSizes(n, p, b, a) && n <= 256
    ensures Chosen(b, a, level) == LeastFit(a, level)
  {
    hide CeilDiv, Cap, VersionFor;
    CapFacts(level);
    TinySizes(n, p, b, a);
    ClassFor(p + 12, level); ClassFor(p + 14, level);
  }

  lemma ShortSizes(n: nat, p: nat, b: PerClass, a: PerClass)
    requires KanjiSizes(n, p, b, a) && 256 < n <= 1024
    ensures p + 24 <= b.c0 <= p + 48 && p + 12 <= a.c0 <= p + 36 && a.c0 <= b.c0 && (n <= 510 ==> a.c0 == p + 12)
    ensures b.c1 == a.c1 == p + 14 && b.c2 == a.c2 == p + 16
  {
    hide CeilDiv;
    CeilRange(n, 256); CeilRange(n, 510); CeilRange(n, 1024); CeilRange(n, 2046); CeilRange(n, 4096); CeilRange(n, 8190);
  }

  /** Up to version 9: the estimate counts two segments, but needs no larger version for them. */
  lemma KanjiNine(n: nat, p: nat, b: PerClass, a: PerClass, level: Level)
    requires KanjiSizes(n, p, b, a) && 256 < n <= 1024 && a.c0 <= Cap(9, level)
    ensures Chosen(b, a, level) == LeastFit(a, level) == 9 && p + 16 <= Cap(26, level)
  {
    hide CeilDiv, Cap, VersionFor;
    ShortSizes(n, p, b, a);
    hide KanjiSizes;
    CapFacts(level); SmallCaps(level);
    assert p <= 1839;
    ClassFor(b.c0, level); ClassFor(p + 14, level); ClassFor(p + 16, level);
    VersionForMeaning(b.c0, level, 8); VersionForMeaning(p + 14, level, 8); VersionForMeaning(a.c0, level, 8);
    VersionForMeaning(a.c0, level, 9);
  }

  lemma KanjiShort(n: nat, p: nat, b: PerClass, a: PerClass, level: Level)
    requires KanjiSizes(n, p, b, a) && 256 < n <= 1024 && a.c0 > Cap(9, level)
    ensures Chosen(b, a, level) == LeastFit(a, level) <==> !(p + 14 <= Cap(26, level) < p + 16)
  {
    hide CeilDiv, Cap, VersionFor;
    ShortSizes(n, p, b, a);
    CapFacts(level); CapSteps(level);
    assert p + 14 > Cap(9, level) && b.c0 <= Cap(VERSION_MAX, level);
    hide KanjiSizes;
    ClassFor(p + 14, level); ClassFor(p + 16, level);
    VersionForMeaning(p + 14, level, 25); VersionForMeaning(p + 16, level, 25);
  }

  lemma MiddleSizes(n: nat, p: nat, b: PerClass, a: PerClass)
    requires KanjiSizes(n, p, b, a) && 1024 < n <= 2046
    ensures p + 60 <= b.c0 <= p + 96 && p + 36 <= a.c0 <= p + 60 && 6656 < p
    ensures b.c1 == p + 28 && a.c1 == p + 14 && b.c2 == a.c2 == p + 16
  {
    hide CeilDiv;
    CeilRange(n, 256); CeilRange(n, 510); CeilRange(n, 1024); CeilRange(n, 2046); CeilRange(n, 4096); CeilRange(n, 8190);
  }

  lemma NeedsMore(a: nat, b: nat, level: Level)
    requires a <= b <= Cap(VERSION_MAX, level)
    ensures VersionFor(a, level) <= VersionFor(b, level)
  {
    hide Cap, VersionFor;
    ClassFor(b, level);
    var v := VersionFor(b, level);
    VersionForMeaning(b, level, v); VersionForMeaning(a, level, v);
  }

  lemma KanjiMiddle(n: nat, p: nat, b: PerClass, a: PerClass, level: Level)
    requires KanjiSizes(n, p, b, a) && 1024 < n <= 2046
    ensures Chosen(b, a, level) == LeastFit(a, level)
       <==> && !(1 <= VersionFor(p + 14, level) <= 25 && p + 28 > Cap(VersionFor(p + 14, level), level))
            && !(p + 14 <= Cap(26, level) < p + 16)
            && !(p + 16 <= Cap(VERSION_MAX, level) < a.c0)
  {
    hide CeilDiv, Cap, VersionFor;
    MiddleSizes(n, p, b, a);
    hide KanjiSizes;
    CapFacts(level); CapSteps(level);
    var v := VersionFor(p + 14, level);
    ClassFor(p + 14, level); ClassFor(p + 16, level); ClassFor(p + 28, level); ClassFor(a.c0, level);
    VersionForMeaning(p + 14, level, 25);
    if 1 <= v <= 25 {
      assert Chosen(b, a, level) == VersionFor(p + 28, level) && LeastFit(a, level) == v;
      VersionForMeaning(p + 28, level, v);
      NeedsMore(p + 14, p + 28, level);
    } else if v == 26 {
      VersionForMeaning(p + 28, level, 25); VersionForMeaning(p + 16, level, 25);
      assert LeastFit(a, level) == 26;
    } else {
      VersionForMeaning(p + 16, level, 39); VersionForMeaning(a.c0, level, 39);
    }
  }

  lemma LongSizes(n: nat, p: nat, b: PerClass, a: PerClass)
    requires KanjiSizes(n, p, b, a) && 2046 < n
    ensures p > 13299 && p + 96 <= b.c0 && p + 28 <= b.c1 && p + 28 <= a.c1 && p + 60 <= a.c0 <= b.c0
    ensures n <= 3640 ==> b.c0 <= p + 180 && b.c2 == a.c2 == p + 16
    ensures p + 16 <= b.c2 && (n > 3640 ==> p > 23648)
  {
    hide CeilDiv;
    CeilRange(n, 256); CeilRange(n, 510); CeilRange(n, 1024); CeilRange(n, 2046); CeilRange(n, 4096); CeilRange(n, 8190);
  }

  lemma KanjiLong(n: nat, p: nat, b: PerClass, a: PerClass, level: Level)
    requires KanjiSizes(n, p, b, a) && 2046 < n
    ensures Chosen(b, a, level) == LeastFit(a, level) <==> !(p + 16 <= Cap(VERSION_MAX, level) < a.c0)
  {
    hide CeilDiv, Cap, VersionFor;
    LongSizes(n, p, b, a);
    hide KanjiSizes;
    CapFacts(level); CapSteps(level);
    ClassFor(p + 16, level); ClassFor(a.c0, level);
    VersionForMeaning(p + 16, level, 39); VersionForMeaning(a.c0, level, 39);
  }

  lemma KanjiWindow(n: nat, p: nat, b: PerClass, a: PerClass, level: Level)
    requires KanjiSizes(n, p, b, a) && p == EstimateBitsKanji(n)
    ensures Chosen(b, a, level) == LeastFit(a, level) <==> !KanjiMisses(n, level)
  {
    hide CeilDiv, Cap, VersionFor, Chosen, LeastFit, EstimateBitsKanji;
    CapFacts(level);
    ClassFor(p + 14, level);
    if n <= 256 {
      KanjiTiny(n, p, b, a, level);
      CeilRange(n, 510);
    } else if n <= 1024 {
      ShortSizes(n, p, b, a);
      if a.c0 <= Cap(9, level) { KanjiNine(n, p, b, a, level); } else { KanjiShort(n, p, b, a, level); }
    } else if n <= 2046 {
      KanjiMiddle(n, p, b, a, level);
    } else {
      LongSizes(n, p, b, a);
      KanjiLong(n, p, b, a, level);
    }
  }

  /** One Kanji entry, no version requested: exactly where the least version is not chosen. */
  lemma KanjiLeast(e: Entry, level: Level)
    requires Check(e) && e.mode == Kanji
    ensures AllValid([e])
    ensures IsLeast([e], level, 0, FinalVersion([e], level, 0)) <==> !KanjiMisses(|e.data|, level)
  {
    hide Estimates, Lengths, KanjiSizes, FinalVersion, IsLeast, Check, Chosen, LeastFit, EstimateBitsKanji, KanjiMisses;
    hide AllChecked, AllValid;
    One(e);
    LeastClosed([e], level);
    KanjiOne(e);
    KanjiWindow(|e.data|, EstimateBitsKanji(|e.data|), Estimates([e]), Lengths([e]), level);
  }

  /** One Kanji entry that a requested version holds: exactly where the request is exceeded. */
  lemma KanjiRequest(e: Entry, level: Level, v: nat)
    requires Check(e) && e.mode == Kanji && AllValid([e]) && Fits([e], level, v)
    ensures v <= VERSION_MAX
    ensures var n, p := |e.data|, EstimateBitsKanji(|e.data|);
            FinalVersion([e], level, v) == v
            <==> !(n > 1024 && v <= 25 && p + 28 > Cap(v, level)) && !(v == 26 && p + 16 > Cap(26, level))
  {
    hide Estimates, Lengths, KanjiSizes, FinalVersion, Check, Estimated, EstimateBitsKanji, AllChecked, AllValid, Fits, Cap;
    One(e);
    RequestExactly([e], level, v);
    FitsBits([e], level, v);
    KanjiOne(e);
    KanjiAbove(|e.data|, EstimateBitsKanji(|e.data|), Estimates([e]), Lengths([e]), level, v);
  }

  lemma TinyAbove(n: nat, p: nat, b: PerClass, a: PerClass, level: Level, v: nat)
    requires KanjiSizes(n, p, b, a) && n <= 256 && 1 <= v <= VERSION_MAX && a.At(v) <= Cap(v, level)
    ensures Estimated(b, level) <= v && p + 16 <= Cap(26, level)
  {
    hide CeilDiv, Cap, VersionFor;
    TinySizes(n, p, b, a);
    hide KanjiSizes;
    CapFacts(level);
    VersionForMeaning(Deciding(b, level), level, v); ClassFor(Deciding(b, level), level);
    if v <= 9 { CapMonotone(v, 9, level); } else { CapMonotone(9, v, level); }
    if v >= 27 { CapMonotone(26, v, level); }
  }

  lemma ShortAbove(n: nat, p: nat, b: PerClass, a: PerClass, level: Level, v: nat)
    requires KanjiSizes(n, p, b, a) && 256 < n <= 1024 && 1 <= v <= VERSION_MAX && a.At(v) <= Cap(v, level)
    ensures Estimated(b, level) <= v <==> !(v == 26 && p + 16 > Cap(26, level))
  {
    hide CeilDiv, Cap, VersionFor;
    ShortSizes(n, p, b, a);
    assert p <= 1844 ==> n <= 283 && p <= 1839;
    hide KanjiSizes;
    CapFacts(level);
    VersionForMeaning(Deciding(b, level), level, v); ClassFor(Deciding(b, level), level);
    CapSteps(level); SmallCaps(level);
    if v <= 8 { CapMonotone(v, 8, level); } else if v <= 9 { CapMonotone(v, 9, level); } else if v <= 25 { CapMonotone(v, 25, level); }
    if v >= 10 { CapMonotone(9, v, level); }
    if v >= 27 { CapMonotone(26, v, level); }
  }

  lemma MiddleAbove(n: nat, p: nat, b: PerClass, a: PerClass, level: Level, v: nat)
    requires KanjiSizes(n, p, b, a) && 1024 < n <= 2046 && 1 <= v <= VERSION_MAX && a.At(v) <= Cap(v, level)
    ensures Estimated(b, level) <= v <==> !(v <= 25 && p + 28 > Cap(v, level)) && !(v == 26 && p + 16 > Cap(26, level))
  {
    hide CeilDiv, Cap, VersionFor;
    MiddleSizes(n, p, b, a);
    hide KanjiSizes;
    CapFacts(level);
    VersionForMeaning(Deciding(b, level), level, v); ClassFor(Deciding(b, level), level);
    CapSteps(level);
    if v <= 9 { CapMonotone(v, 9, level); } else if v <= 25 { CapMonotone(v, 25, level); }
    if v >= 27 { CapMonotone(26, v, level); }
  }

  lemma LongAbove(n: nat, p: nat, b: PerClass, a: PerClass, level: Level, v: nat)
    requires KanjiSizes(n, p, b, a) && 2046 < n && 1 <= v <= VERSION_MAX && a.At(v) <= Cap(v, level)
    ensures v >= 27 && Estimated(b, level) <= v
  {
    hide CeilDiv, Cap, VersionFor;
    LongSizes(n, p, b, a);
    hide KanjiSizes;
    CapFacts(level);
    VersionForMeaning(Deciding(b, level), level, v); ClassFor(Deciding(b, level), level);
    if v <= 26 { CapMonotone(v, 26, level); }
    CapMonotone(v, VERSION_MAX, level);
  }

  lemma KanjiAbove(n: nat, p: nat, b: PerClass, a: PerClass, level: Level, v: nat)
    requires KanjiSizes(n, p, b, a) && 1 <= v <= VERSION_MAX && a.At(v) <= Cap(v, level)
    ensures Estimated(b, level) <= v
       <==> !(n > 1024 && v <= 25 && p + 28 > Cap(v, level)) && !(v == 26 && p + 16 > Cap(26, level))
  {
    hide KanjiSizes, Estimated, Cap;
    if n <= 256 { TinyAbove(n, p, b, a, level, v); }
    else if n <= 1024 { ShortAbove(n, p, b, a, level, v); }
    else if n <= 2046 { MiddleAbove(n, p, b, a, level, v); }
    else { LongAbove(n, p, b, a, level, v); }
  }

  // ---- Two inputs ----

  lemma LengthOne(e: Entry, v: nat)
    requires Check(e) && e.mode != Structure && !TooLong(e, v)
    ensures AllValid([e]) && |EncodeAll([e], v)| == 4 + LengthIndicator(e.mode, v) + EstimateBits(e.mode, |e.data|)
  {
    hide ModeData, EncodeEntry, EncodeChunk, EncodeAll, LengthIndicator, EstimateBits, TooLong;
    OneEntry(e, v);
    OneSegment(e, v);
    ChunkLength(e, v);
  }

  /** 2953 bytes fit into version 40-L, but no version is found for them when none is requested: the
      twelve headers that the smallest versions need take them over the capacity. */
  lemma BytesLost(d: seq<Byte>)
    requires |d| == 2953
    ensures AllValid([Entry(Eight, d)])
    ensures Fits([Entry(Eight, d)], L, 40) && FinalVersion([Entry(Eight, d)], L, 0) == 0
  {
    var e := Entry(Eight, d);
    SmallPowers();
    assert Check(e) && EstimateBits(Eight, 2953) == 23624 && Cap(40, L) == 23648 && !TooLong(e, 40);
    assert SmallestFields(Eight, 2953) == 23768 by { CeilRange(2953, 256); }
    hide ModeData, Check, EncodeAll, EstimateBits, SmallestFields, FinalVersion, TooLong, DataLength;
    LengthOne(e, 40);
    OneEntryExists(e, L);
    CapIs(40, L);
  }

  /** 3283 digits fit into version 26-L, but get version 27 when none is requested: their estimate
      for the smallest versions skips version 26, and with the wider field of version 27 they would
      not fit into version 26. */
  lemma DigitsLarger(d: seq<Byte>)
    requires |d| == 3283 && ModeData(Num, d)
    ensures AllValid([Entry(Num, d)])
    ensures Fits([Entry(Num, d)], L, 26) && FinalVersion([Entry(Num, d)], L, 0) == 27
  {
    var e := Entry(Num, d);
    SmallPowers();
    assert EstimateBits(Num, 3283) == 10944 && !TooLong(e, 26);
    assert Cap(9, L) == 1856 && Cap(26, L) == 10960 && Cap(27, L) == 11744 && Cap(40, L) == 23648;
    assert SmallestFields(Num, 3283) == 11000 by { CeilRange(3283, 1024); }
    hide ModeData, EncodeAll, EstimateBits, SmallestFields, Estimates, Lengths, FinalVersion, TooLong;
    hide DataLength, VersionFor, Cap;
    LengthOne(e, 26);
    CapIs(26, L);
    One(e);
    OneGroupEach(e, L);
    ChosenIs([e], L);
    VersionForMeaning(10962, L, 26); VersionForMeaning(10962, L, 27);
  }
}
