/**
 The AL2 evidence table for Android key attestations: the readers of the patch-level fields,
 the table itself, and what its integer comparisons mean on the calendar.
 */
module AndroidEvidence {
  import opened CivilCalendar
  import opened Numerals
  import opened Options
  import opened TaggedFields

  const KM_PURPOSE_SIGN: nat := 2
  const KM_ALGORITHM_EC: nat := 3
  const KM_DIGEST_SHA_2_256: nat := 4
  const KM_EC_CURVE_P_256: nat := 1
  const KM_ORIGIN_GENERATED: nat := 0
  const VERIFIED_BOOT_STATE_VERIFIED: nat := 0
  const OS_PATCH_MAX_AGE_MONTHS: nat := 3
  const FIRMWARE_PATCH_MAX_AGE_DAYS: nat := 90

  datatype AppPackage = AppPackage(name: string, version: Option<int>)

  datatype RootOfTrust = RootOfTrust(deviceLocked: bool, verifiedBootState: nat)

  datatype KeyDescription = KeyDescription(
    appPackages: seq<AppPackage>,
    appSigningCertDigests: seq<seq<Byte>>,
    purposes: Option<seq<nat>>,
    algorithm: Option<nat>,
    keySize: Option<nat>,
    digests: Option<seq<nat>>,
    ecCurve: Option<nat>,
    origin: Option<nat>,
    rootOfTrust: Option<RootOfTrust>,
    osPatchLevel: Option<nat>,
    vendorPatchLevel: Option<nat>,
    bootPatchLevel: Option<nat>)

  /** `now` is in milliseconds since the start of 1970. */
  datatype Al2Options = Al2Options(
    packageName: string, signingCertSha256Digests: seq<seq<Byte>>, minAppVersionCode: Option<int>, now: nat)

  datatype Row =
    | AppSigningCertMismatch | AppVersionBelowFloor
    | KeyPurpose | KeyAlgorithm | KeySize | KeyDigest | KeyCurve | KeyOrigin
    | RootOfTrustMissing | DeviceNotLocked | VerifiedBootNotVerified
    | OsPatchMissing | OsPatchStale | OsPatchFuture
    | VendorPatchMissing | VendorPatchStale | VendorPatchFuture
    | BootPatchMissing | BootPatchStale | BootPatchFuture

  datatype StaleDetail = Os(patchMonth: string, maxAgeMonths: nat) | Firmware(patchDate: string, maxAgeDays: nat)

  datatype Verdict =
    | Accepted
    | StalePatch(failures: seq<Row>, detail: StaleDetail)
    | EvidenceFailed(failures: seq<Row>)

  // ---------------------------------------------------------------------------
  // Reading patch levels
  // ---------------------------------------------------------------------------

  function OsLevel(wire: nat): Option<nat> {
    var value := if wire >= 10_000_000 then wire / 100 else wire;
    if value < 200001 || value > 210012 then None else Some(value)
  }

  function DayLevel(wire: nat): Option<nat> {
    var value := if wire < 10_000_000 then wire * 100 + 1 else wire;
    if value < 20000101 || value > 21001231 then None else Some(value)
  }

  /** `month` is what a wire value of the os field means: itself in six digits, the month of a longer one. */
  predicate ReadsAsMonth(wire: nat, month: nat) {
    && 200001 <= month <= 210012
    && if wire < 10_000_000 then month == wire else month * 100 <= wire < month * 100 + 100
  }

  /** `day` is what a wire value of a firmware field means: itself in eight digits, the first of a month in six. */
  predicate ReadsAsDay(wire: nat, day: nat) {
    && 20000101 <= day <= 21001231
    && if wire < 10_000_000 then day == wire * 100 + 1 else day == wire
  }

  lemma LevelsRead(wire: nat)
    ensures forall month: nat :: OsLevel(wire) == Some(month) <==> ReadsAsMonth(wire, month)
    ensures forall day: nat :: DayLevel(wire) == Some(day) <==> ReadsAsDay(wire, day)
  {
  }

  const TAG_OS_PATCH_LEVEL: nat := 706

  /** The `osPatchLevel` INTEGER of an AuthorizationList as `YYYYMM`; the day of a `YYYYMMDD` value is
      dropped. */
  method ExtractOsPatchLevel(fields: Option<seq<Node>>) returns (level: Option<nat>)
    ensures exists wire :: ReadsAs(fields, 706, {2}, wire)
                           && forall month: nat :: level == Some(month) <==> wire.Some? && ReadsAsMonth(wire.value, month)
  {
    var wire := ReadScalar(fields, TAG_OS_PATCH_LEVEL, {INTEGER});
    level := None;
    if wire.Some? {
      var value := wire.value;
      if value >= 10_000_000 {
        value := value / 100;
      }
      if 200001 <= value <= 210012 {
        level := Some(value);
      }
    }
    assert level == if wire.None? then None else OsLevel(wire.value);
    if wire.Some? {
      LevelsRead(wire.value);
    }
    assert ReadsAs(fields, 706, {2}, wire);
  }

  /** A vendor or boot patch level as `YYYYMMDD`; a `YYYYMM` value means its first day. */
  method ExtractDayPatchLevel(fields: Option<seq<Node>>, tagNumber: nat) returns (level: Option<nat>)
    ensures exists wire :: ReadsAs(fields, tagNumber, {2, 10}, wire)
                           && forall day: nat :: level == Some(day) <==> wire.Some? && ReadsAsDay(wire.value, day)
  {
    var wire := ReadScalar(fields, tagNumber, {INTEGER, ENUMERATED});
    level := None;
    if wire.Some? {
      var value := wire.value;
      if value < 10_000_000 {
        value := value * 100 + 1;
      }
      if 20000101 <= value <= 21001231 {
        level := Some(value);
      }
    }
    assert level == if wire.None? then None else DayLevel(wire.value);
    if wire.Some? {
      LevelsRead(wire.value);
    }
    assert ReadsAs(fields, tagNumber, {2, 10}, wire);
  }

  /** One wire value read both ways: whatever the day reader accepts, the month reader accepts as
      the same month; and the month reader accepts nothing else except values of a first or last
      month whose day is out of range. */
  lemma ReadersAgree(wire: nat)
    ensures DayLevel(wire).Some? ==> OsLevel(wire) == Some(DayLevel(wire).value / 100)
    ensures OsLevel(wire).Some? && DayLevel(wire).None? <==>
              wire == 20000100 || 21001232 <= wire <= 21001299
  {
  }

  /** One field read both ways: when the os reader makes out a number, the day reader makes out the same
      one; and if the day reader's level is in range, the os reader's is its month. */
  lemma FieldsAgree(fields: Option<seq<Node>>, tagNumber: nat, asOs: Option<nat>, asDay: Option<nat>)
    requires ReadsAs(fields, tagNumber, {2}, asOs) && ReadsAs(fields, tagNumber, {2, 10}, asDay)
    ensures asOs.Some? ==>
              asDay == asOs && (DayLevel(asDay.value).Some? ==> OsLevel(asOs.value) == Some(DayLevel(asDay.value).value / 100))
  {
    MoreTags(fields, tagNumber, {2}, {2, 10}, asOs, asDay);
    if asOs.Some? {
      ReadersAgree(asOs.value);
    }
  }

  // ---------------------------------------------------------------------------
  // Dates as the app shows them
  // ---------------------------------------------------------------------------

  /** `padStart(2, "0")` of a numeral. */
  function PadTwo(n: nat): string {
    var s := ToBase(n, 10);
    if |s| < 2 then "0" + s else s
  }

  function IsoMonth(yyyymm: nat): string {
    ToBase(yyyymm / 100, 10) + "-" + PadTwo(yyyymm % 100)
  }

  function IsoDay(yyyymmdd: nat): string {
    IsoMonth(yyyymmdd / 100) + "-" + PadTwo(yyyymmdd % 100)
  }

  lemma PadTwoDigits(n: nat)
    requires n < 100
    ensures PadTwo(n) == [DigitChar(n / 10), DigitChar(n % 10)]
  {
    if n >= 10 {
      assert ToBase(n / 10, 10) == [DigitChar(n / 10)];
      assert ToBase(n, 10) == [DigitChar(n / 10)] + [DigitChar(n % 10)];
    } else {
      assert ToBase(n, 10) == [DigitChar(n)];
      assert DigitChar(0) == '0';
    }
  }

  lemma PadTwoInjective(m: nat, n: nat)
    requires m < 100 && n < 100 && PadTwo(m) == PadTwo(n)
    ensures m == n
  {
    PadTwoDigits(m);
    PadTwoDigits(n);
    assert PadTwo(m)[0] == DigitChar(m / 10) && PadTwo(m)[1] == DigitChar(m % 10);
    assert PadTwo(n)[0] == DigitChar(n / 10) && PadTwo(n)[1] == DigitChar(n % 10);
  }

  /** Text before a dash and two characters determines both. */
  lemma BeforeTwo(a: string, x: string, b: string, y: string)
    requires |x| == 2 && |y| == 2 && a + "-" + x == b + "-" + y
    ensures a == b && x == y
  {
    var l, r := a + "-" + x, b + "-" + y;
    assert |l| == |a| + 3 && |r| == |b| + 3;
    assert l[..|a|] == a && r[..|a|] == b && l[|a| + 1..] == x && r[|a| + 1..] == y;
  }

  function TwoDigits(n: nat): string
    requires n < 100
  {
    [DigitChar(n / 10), DigitChar(n % 10)]
  }

  /** The texts shown, spelled out: the year, and the month and the day in two digits, after dashes. */
  lemma MonthSpelled(yyyymm: nat, year: nat, month: nat)
    requires yyyymm / 100 == year && yyyymm % 100 == month
    ensures IsoMonth(yyyymm) == ToBase(year, 10) + "-" + TwoDigits(month)
  {
    PadTwoDigits(month);
  }

  lemma DaySpelled(yyyymmdd: nat, yyyymm: nat, day: nat)
    requires yyyymmdd / 100 == yyyymm && yyyymmdd % 100 == day
    ensures IsoDay(yyyymmdd) == IsoMonth(yyyymm) + "-" + TwoDigits(day)
  {
    PadTwoDigits(day);
  }

  /** The text shown determines the month or the day it stands for. */
  lemma IsoMonthInjective(m: nat, n: nat)
    ensures IsoMonth(m) == IsoMonth(n) <==> m == n
  {
    if IsoMonth(m) == IsoMonth(n) {
      PadTwoDigits(m % 100);
      PadTwoDigits(n % 100);
      BeforeTwo(ToBase(m / 100, 10), PadTwo(m % 100), ToBase(n / 100, 10), PadTwo(n % 100));
      ToBaseInjective(m / 100, n / 100, 10);
      PadTwoInjective(m % 100, n % 100);
    }
  }

  lemma IsoDayInjective(m: nat, n: nat)
    ensures IsoDay(m) == IsoDay(n) <==> m == n
  {
    if IsoDay(m) == IsoDay(n) {
      PadTwoDigits(m % 100);
      PadTwoDigits(n % 100);
      BeforeTwo(IsoMonth(m / 100), PadTwo(m % 100), IsoMonth(n / 100), PadTwo(n % 100));
      IsoMonthInjective(m / 100, n / 100);
      PadTwoInjective(m % 100, n % 100);
    }
  }

  // ---------------------------------------------------------------------------
  // Floors and ceilings
  // ---------------------------------------------------------------------------

  /** `YYYYMM` of the month `monthsBack` before the one of `now`, as `Date.UTC` carries months
      into years. */
  function YyyymmFloor(now: nat, monthsBack: int): nat
    requires -1000 <= monthsBack <= 1000
  {
    var d := DateOfMoment(now);
    var m := d.month - 1 - monthsBack;
    RecentYear(now);
    Yyyymm(d.year + m / 12, m % 12 + 1)
  }

  function YyyymmddFloor(now: nat, daysBack: int): nat {
    Yyyymmdd(DateOfMoment(now - daysBack * MS_PER_DAY))
  }

  /** A moment from 1970 on has a year from 1970 on. */
  lemma RecentYear(now: nat)
    ensures Valid(DateOfMoment(now)) && DateOfMoment(now).year >= EPOCH_YEAR
  {
    YearsAreLong(EPOCH_YEAR);
    var n := DayOfMoment(now);
    NumberOfCivil(n);
    var d := CivilOf(n);
    NumberWithinYear(d);
    if d.year < EPOCH_YEAR {
      YearsGrow(d.year, EPOCH_YEAR);
    }
  }

  lemma MonthFloorIndex(now: nat, monthsBack: int, year: nat, month: nat)
    requires -1000 <= monthsBack <= 1000 && 1 <= month <= 12
    ensures var d := DateOfMoment(now);
            && (Yyyymm(year, month) < YyyymmFloor(now, monthsBack)
                <==> MonthIndex(year, month) < MonthIndex(d.year, d.month) - monthsBack)
            && (Yyyymm(year, month) > YyyymmFloor(now, monthsBack)
                <==> MonthIndex(year, month) > MonthIndex(d.year, d.month) - monthsBack)
  {
    var d := DateOfMoment(now);
    RecentYear(now);
    var m := d.month - 1 - monthsBack;
    var y, k := d.year + m / 12, m % 12 + 1;
    assert MonthIndex(y, k) == MonthIndex(d.year, d.month) - monthsBack;
    MonthIntegersOrder(year, month, y, k);
    MonthIntegersOrder(y, k, year, month);
  }

  lemma DayFloorNumber(now: nat, daysBack: int, d: Date)
    requires -1000 <= daysBack <= 1000 && Valid(d)
    ensures Yyyymmdd(d) < YyyymmddFloor(now, daysBack) <==> DayNumber(d) < DayOfMoment(now) - daysBack
    ensures Yyyymmdd(d) > YyyymmddFloor(now, daysBack) <==> DayNumber(d) > DayOfMoment(now) - daysBack
  {
    ShiftDays(now, daysBack);
    var n := DayOfMoment(now - daysBack * MS_PER_DAY);
    NumberOfCivil(n);
    DayIntegersOrder(d, CivilOf(n));
    DayIntegersOrder(CivilOf(n), d);
  }

  /** The calendar meaning of the os rows: not stale is at most three months back, not in the
      future is at most one month ahead, across year ends. */
  lemma OsWindow(now: nat, today: Date, year: nat, month: nat)
    requires 1 <= month <= 12 && FallsOn(now, today)
    ensures YyyymmFloor(now, OS_PATCH_MAX_AGE_MONTHS) <= year * 100 + month <= YyyymmFloor(now, -1)
            <==> -3 <= (year * 12 + month) - (today.year * 12 + today.month) <= 1
  {
    DateOfToday(now, today);
    MonthFloorIndex(now, OS_PATCH_MAX_AGE_MONTHS, year, month);
    MonthFloorIndex(now, -1, year, month);
  }

  /** The calendar meaning of the vendor and boot rows: within 90 days back and 31 days ahead,
      across months, year ends and leap days. */
  lemma FirmwareWindow(now: nat, today: Date, d: Date)
    requires Valid(d) && FallsOn(now, today)
    ensures YyyymmddFloor(now, FIRMWARE_PATCH_MAX_AGE_DAYS) <= d.year * 10000 + d.month * 100 + d.day <= YyyymmddFloor(now, -31)
            <==> -90 <= DayNumber(d) - DayNumber(today) <= 31
  {
    DateOfToday(now, today);
    DayFloorNumber(now, FIRMWARE_PATCH_MAX_AGE_DAYS, d);
    DayFloorNumber(now, -31, d);
  }

  // ---------------------------------------------------------------------------
  // The table
  // ---------------------------------------------------------------------------

  predicate SomeDigestMatches(desc: KeyDescription, opts: Al2Options) {
    exists got | got in desc.appSigningCertDigests :: got in opts.signingCertSha256Digests
  }

  /** Some package entry of this name has a version of at least the floor. */
  predicate VersionReached(desc: KeyDescription, packageName: string, floor: int) {
    exists p | p in desc.appPackages :: p.name == packageName && p.version.Some? && p.version.value >= floor
  }

  predicate Has(values: Option<seq<nat>>, v: nat) {
    values.Some? && v in values.value
  }

  predicate IsStale(row: Row) {
    row.OsPatchStale? || row.VendorPatchStale? || row.BootPatchStale?
  }

  /** The place of a row in the table. */
  function Rank(row: Row): nat {
    match row
    case AppSigningCertMismatch => 0
    case AppVersionBelowFloor => 1
    case KeyPurpose => 2
    case KeyAlgorithm => 3
    case KeySize => 4
    case KeyDigest => 5
    case KeyCurve => 6
    case KeyOrigin => 7
    case RootOfTrustMissing => 8
    case DeviceNotLocked => 9
    case VerifiedBootNotVerified => 10
    case OsPatchMissing => 11
    case OsPatchStale => 12
    case OsPatchFuture => 13
    case VendorPatchMissing => 14
    case VendorPatchStale => 15
    case VendorPatchFuture => 16
    case BootPatchMissing => 17
    case BootPatchStale => 18
    case BootPatchFuture => 19
  }

  /** Each row once, in the order of the table. */
  predicate InTableOrder(failures: seq<Row>) {
    forall i, j | 0 <= i < j < |failures| :: Rank(failures[i]) < Rank(failures[j])
  }

  /** In the order of the table, between two places of it. */
  predicate Spans(failures: seq<Row>, from: nat, to: nat) {
    InTableOrder(failures) && forall i | 0 <= i < |failures| :: from <= Rank(failures[i]) < to
  }

  lemma SpansAppend(a: seq<Row>, b: seq<Row>, from: nat, middle: nat, to: nat)
    requires Spans(a, from, middle) && Spans(b, middle, to) && from <= middle <= to
    ensures Spans(a + b, from, to)
  {
  }

  lemma SpansOne(row: Row)
    ensures Spans([row], Rank(row), Rank(row) + 1)
  {
  }

  /** The least and greatest patch levels that pass. */
  datatype Limits = Limits(osFloor: nat, osCeiling: nat, dayFloor: nat, dayCeiling: nat)

  function LimitsAt(now: nat): Limits {
    Limits(YyyymmFloor(now, OS_PATCH_MAX_AGE_MONTHS), YyyymmFloor(now, -1),
           YyyymmddFloor(now, FIRMWARE_PATCH_MAX_AGE_DAYS), YyyymmddFloor(now, -31))
  }

  predicate Below(level: Option<nat>, floor: nat) {
    level.Some? && level.value < floor
  }

  predicate Above(level: Option<nat>, ceiling: nat) {
    level.Some? && level.value > ceiling
  }

  predicate FailsAppRow(row: Row, desc: KeyDescription, opts: Al2Options) {
    || (row == AppSigningCertMismatch && !SomeDigestMatches(desc, opts))
    || (row == AppVersionBelowFloor && opts.minAppVersionCode.Some?
        && !VersionReached(desc, opts.packageName, opts.minAppVersionCode.value))
  }

  predicate FailsParameterRow(row: Row, desc: KeyDescription) {
    || (row == KeyPurpose && !Has(desc.purposes, 2))
    || (row == KeyAlgorithm && desc.algorithm != Some(3))
    || (row == KeySize && desc.keySize != Some(256))
    || (row == KeyDigest && !Has(desc.digests, 4))
    || (row == KeyCurve && desc.ecCurve != Some(1))
    || (row == KeyOrigin && desc.origin != Some(0))
  }

  predicate FailsRootRow(row: Row, root: Option<RootOfTrust>) {
    || (row == RootOfTrustMissing && root.None?)
    || (row == DeviceNotLocked && root.Some? && !root.value.deviceLocked)
    || (row == VerifiedBootNotVerified && root.Some? && root.value.verifiedBootState != 0)
  }

  /** When each row about the app and the key fails. */
  predicate FailsKeyRow(row: Row, desc: KeyDescription, opts: Al2Options) {
    FailsAppRow(row, desc, opts) || FailsParameterRow(row, desc) || FailsRootRow(row, desc.rootOfTrust)
  }

  predicate FailsLevelRow(row: Row, level: Option<nat>, floor: nat, ceiling: nat, missing: Row, stale: Row, future: Row) {
    (row == missing && level.None?) || (row == stale && Below(level, floor)) || (row == future && Above(level, ceiling))
  }

  /** When each patch-currency row fails. */
  predicate FailsPatchRow(row: Row, desc: KeyDescription, lim: Limits) {
    || FailsLevelRow(row, desc.osPatchLevel, lim.osFloor, lim.osCeiling, OsPatchMissing, OsPatchStale, OsPatchFuture)
    || FailsLevelRow(row, desc.vendorPatchLevel, lim.dayFloor, lim.dayCeiling,
                     VendorPatchMissing, VendorPatchStale, VendorPatchFuture)
    || FailsLevelRow(row, desc.bootPatchLevel, lim.dayFloor, lim.dayCeiling,
                     BootPatchMissing, BootPatchStale, BootPatchFuture)
  }

  /** When a row of the table fails. */
  predicate FailsWithin(row: Row, desc: KeyDescription, opts: Al2Options, lim: Limits) {
    FailsKeyRow(row, desc, opts) || FailsPatchRow(row, desc, lim)
  }

  lemma FloorsBelowCeilings(now: nat)
    ensures LimitsAt(now).osFloor <= LimitsAt(now).osCeiling
    ensures LimitsAt(now).dayFloor <= LimitsAt(now).dayCeiling
  {
    var d := DateOfMoment(now);
    RecentYear(now);
    TodayExists(now);
    OsWindow(now, d, d.year, d.month);
    FirmwareWindow(now, d, d);
  }

  /** `Math.max` over the versions of one package, or nothing without any. */
  method MaxVersion(packages: seq<AppPackage>, name: string) returns (max: Option<int>)
    ensures max.None? <==> forall p | p in packages :: p.name != name || p.version.None?
    ensures max.Some? ==> exists p | p in packages :: p.name == name && p.version == max
    ensures forall p | p in packages && p.name == name && p.version.Some? :: max.Some? && p.version.value <= max.value
  {
    max := None;
    var i := 0;
    while i < |packages|
      invariant 0 <= i <= |packages|
      invariant max.None? <==> forall p | p in packages[..i] :: p.name != name || p.version.None?
      invariant max.Some? ==> exists p | p in packages[..i] :: p.name == name && p.version == max
      invariant forall p | p in packages[..i] && p.name == name && p.version.Some? ::
                  max.Some? && p.version.value <= max.value
    {
      var p := packages[i];
      assert packages[..i + 1] == packages[..i] + [p];
      assert p in packages[..i + 1];
      if p.name == name && p.version.Some? && (max.None? || max.value < p.version.value) {
        max := p.version;
      }
      i := i + 1;
    }
    assert packages[..i] == packages;
  }

  /** `if (failed) failures.push(row)` */
  method PushIf(failures: seq<Row>, failed: bool, row: Row, ghost from: nat) returns (r: seq<Row>)
    requires Spans(failures, from, Rank(row)) && from <= Rank(row)
    ensures forall other :: other in r <==> other in failures || (failed && other == row)
    ensures Spans(r, from, Rank(row) + 1)
  {
    r := failures;
    if failed {
      SpansOne(row);
      SpansAppend(failures, [row], from, Rank(row), Rank(row) + 1);
      r := r + [row];
    }
  }

  method AppRows(desc: KeyDescription, opts: Al2Options) returns (failures: seq<Row>)
    ensures forall row :: row in failures <==> FailsAppRow(row, desc, opts)
    ensures Spans(failures, 0, 2)
  {
    failures := PushIf([], !SomeDigestMatches(desc, opts), AppSigningCertMismatch, 0);
    if opts.minAppVersionCode.Some? {
      var max := MaxVersion(desc.appPackages, opts.packageName);
      failures := PushIf(
        failures, max.None? || max.value < opts.minAppVersionCode.value, AppVersionBelowFloor, 0);
    }
  }

  method ParameterRows(desc: KeyDescription) returns (failures: seq<Row>)
    ensures forall row :: row in failures <==> FailsParameterRow(row, desc)
    ensures Spans(failures, 2, 8)
  {
    failures := PushIf([], !Has(desc.purposes, KM_PURPOSE_SIGN), KeyPurpose, 2);
    failures := PushIf(failures, desc.algorithm != Some(KM_ALGORITHM_EC), KeyAlgorithm, 2);
    failures := PushIf(failures, desc.keySize != Some(256), KeySize, 2);
    failures := PushIf(failures, !Has(desc.digests, KM_DIGEST_SHA_2_256), KeyDigest, 2);
    failures := PushIf(failures, desc.ecCurve != Some(KM_EC_CURVE_P_256), KeyCurve, 2);
    failures := PushIf(failures, desc.origin != Some(KM_ORIGIN_GENERATED), KeyOrigin, 2);
  }

  method RootRows(root: Option<RootOfTrust>) returns (failures: seq<Row>)
    ensures forall row :: row in failures <==> FailsRootRow(row, root)
    ensures Spans(failures, 8, 11)
  {
    if root.None? {
      failures := PushIf([], true, RootOfTrustMissing, 8);
    } else {
      failures := PushIf([], !root.value.deviceLocked, DeviceNotLocked, 8);
      failures := PushIf(
        failures, root.value.verifiedBootState != VERIFIED_BOOT_STATE_VERIFIED, VerifiedBootNotVerified, 8);
    }
  }

  /** The three rows of one patch level. */
  method LevelRows(level: Option<nat>, floor: nat, ceiling: nat, missing: Row, stale: Row, future: Row)
    returns (failures: seq<Row>)
    requires floor <= ceiling
    requires Rank(missing) < Rank(stale) < Rank(future)
    ensures level.None? ==> failures == [missing]
    ensures Below(level, floor) ==> failures == [stale]
    ensures Above(level, ceiling) ==> failures == [future]
    ensures level.Some? && !Below(level, floor) && !Above(level, ceiling) ==> failures == []
    ensures Spans(failures, Rank(missing), Rank(future) + 1)
  {
    if level.None? {
      failures := [missing];
    } else if level.value < floor {
      failures := [stale];
    } else if level.value > ceiling {
      failures := [future];
    } else {
      failures := [];
    }
  }

  lemma LevelRowsComplete(
    failures: seq<Row>, row: Row, level: Option<nat>, floor: nat, ceiling: nat, missing: Row, stale: Row, future: Row)
    requires floor <= ceiling
    requires level.None? ==> failures == [missing]
    requires Below(level, floor) ==> failures == [stale]
    requires Above(level, ceiling) ==> failures == [future]
    requires level.Some? && !Below(level, floor) && !Above(level, ceiling) ==> failures == []
    ensures row in failures <==> FailsLevelRow(row, level, floor, ceiling, missing, stale, future)
  {
    if level.None? {
      assert failures == [missing];
    } else if Below(level, floor) {
      assert failures == [stale];
    } else if Above(level, ceiling) {
      assert failures == [future];
    } else {
      assert failures == [];
    }
  }

  method PatchRows(desc: KeyDescription, lim: Limits) returns (failures: seq<Row>)
    requires lim.osFloor <= lim.osCeiling && lim.dayFloor <= lim.dayCeiling
    ensures forall row :: row in failures <==> FailsPatchRow(row, desc, lim)
    ensures Spans(failures, 11, 20)
  {
    var os := LevelRows(
      desc.osPatchLevel, lim.osFloor, lim.osCeiling, OsPatchMissing, OsPatchStale, OsPatchFuture);
    var vendor := LevelRows(
      desc.vendorPatchLevel, lim.dayFloor, lim.dayCeiling, VendorPatchMissing, VendorPatchStale, VendorPatchFuture);
    var boot := LevelRows(
      desc.bootPatchLevel, lim.dayFloor, lim.dayCeiling, BootPatchMissing, BootPatchStale, BootPatchFuture);
    failures := os + vendor + boot;
    SpansAppend(os, vendor, 11, 14, 17);
    SpansAppend(os + vendor, boot, 11, 17, 20);
    forall row
      ensures row in failures <==> FailsPatchRow(row, desc, lim)
    {
      LevelRowsComplete(os, row, desc.osPatchLevel, lim.osFloor, lim.osCeiling,
                        OsPatchMissing, OsPatchStale, OsPatchFuture);
      LevelRowsComplete(vendor, row, desc.vendorPatchLevel, lim.dayFloor, lim.dayCeiling,
                        VendorPatchMissing, VendorPatchStale, VendorPatchFuture);
      LevelRowsComplete(boot, row, desc.bootPatchLevel, lim.dayFloor, lim.dayCeiling,
                        BootPatchMissing, BootPatchStale, BootPatchFuture);
    }
  }

  /** Every row, in the order of the table. */
  method AllRows(desc: KeyDescription, opts: Al2Options, lim: Limits) returns (failures: seq<Row>)
    requires lim.osFloor <= lim.osCeiling && lim.dayFloor <= lim.dayCeiling
    ensures forall row :: row in failures <==> FailsWithin(row, desc, opts, lim)
    ensures InTableOrder(failures)
  {
    var app := AppRows(desc, opts);
    var parameters := ParameterRows(desc);
    var root := RootRows(desc.rootOfTrust);
    var patch := PatchRows(desc, lim);
    failures := app + parameters + root + patch;
    SpansAppend(app, parameters, 0, 2, 8);
    SpansAppend(app + parameters, root, 0, 8, 11);
    SpansAppend(app + parameters + root, patch, 0, 11, 20);
  }

  /** The earliest of the stale firmware dates. */
  predicate IsOldestStale(vendorStale: bool, bootStale: bool, desc: KeyDescription, date: nat) {
    && ((vendorStale && desc.vendorPatchLevel == Some(date)) || (bootStale && desc.bootPatchLevel == Some(date)))
    && (vendorStale && desc.vendorPatchLevel.Some? ==> date <= desc.vendorPatchLevel.value)
    && (bootStale && desc.bootPatchLevel.Some? ==> date <= desc.bootPatchLevel.value)
  }

  /** What the app is told about a rejection that only stale patches caused: the os month when the
      os row failed, and otherwise the earliest of the stale firmware dates. */
  method StalePatchDetail(desc: KeyDescription, failures: seq<Row>) returns (detail: StaleDetail)
    requires OsPatchStale in failures ==> desc.osPatchLevel.Some?
    requires VendorPatchStale in failures ==> desc.vendorPatchLevel.Some?
    requires BootPatchStale in failures ==> desc.bootPatchLevel.Some?
    requires OsPatchStale in failures || VendorPatchStale in failures || BootPatchStale in failures
    ensures OsPatchStale in failures ==> detail == Os(IsoMonth(desc.osPatchLevel.value), OS_PATCH_MAX_AGE_MONTHS)
    ensures OsPatchStale !in failures ==>
              exists date :: IsOldestStale(VendorPatchStale in failures, BootPatchStale in failures, desc, date)
                             && detail == Firmware(IsoDay(date), FIRMWARE_PATCH_MAX_AGE_DAYS)
  {
    if OsPatchStale in failures {
      return Os(IsoMonth(desc.osPatchLevel.value), OS_PATCH_MAX_AGE_MONTHS);
    }
    var oldest: Option<nat> := None;
    if VendorPatchStale in failures {
      oldest := desc.vendorPatchLevel;
    }
    if BootPatchStale in failures && (oldest.None? || desc.bootPatchLevel.value < oldest.value) {
      oldest := desc.bootPatchLevel;
    }
    assert IsOldestStale(VendorPatchStale in failures, BootPatchStale in failures, desc, oldest.value);
    detail := Firmware(IsoDay(oldest.value), FIRMWARE_PATCH_MAX_AGE_DAYS);
  }

  /** The verdict that belongs to a set of failing rows. */
  ghost predicate Judges(verdict: Verdict, desc: KeyDescription, opts: Al2Options, lim: Limits) {
    && (verdict.Accepted? <==> forall row :: !FailsWithin(row, desc, opts, lim))
    && (!verdict.Accepted? ==> forall row :: row in verdict.failures <==> FailsWithin(row, desc, opts, lim))
    && (verdict.StalePatch? <==>
          && (exists row :: FailsWithin(row, desc, opts, lim))
          && forall row | FailsWithin(row, desc, opts, lim) :: IsStale(row))
    && (!verdict.Accepted? ==> InTableOrder(verdict.failures))
    && (verdict.StalePatch? ==> Explains(verdict.detail, desc, lim))
  }

  /** The os month when the os patch is stale, and otherwise the earliest of the stale firmware dates. */
  ghost predicate Explains(detail: StaleDetail, desc: KeyDescription, lim: Limits) {
    if Below(desc.osPatchLevel, lim.osFloor) then
      detail == Os(IsoMonth(desc.osPatchLevel.value), 3)
    else
      exists date :: IsOldestStale(Below(desc.vendorPatchLevel, lim.dayFloor), Below(desc.bootPatchLevel, lim.dayFloor),
                                   desc, date)
                     && detail == Firmware(IsoDay(date), 90)
  }

  /** A level between two dates, written as an integer. */
  predicate Between(level: Option<nat>, least: nat, greatest: nat) {
    level.Some? && least <= level.value <= greatest
  }

  ghost predicate SignedAsRegistered(desc: KeyDescription, opts: Al2Options) {
    exists i, j | 0 <= i < |desc.appSigningCertDigests| && 0 <= j < |opts.signingCertSha256Digests| ::
      desc.appSigningCertDigests[i] == opts.signingCertSha256Digests[j]
  }

  ghost predicate NewEnough(desc: KeyDescription, opts: Al2Options) {
    opts.minAppVersionCode.Some? ==>
      exists i, v: int | 0 <= i < |desc.appPackages| ::
        desc.appPackages[i] == AppPackage(opts.packageName, Some(v)) && v >= opts.minAppVersionCode.value
  }

  /** The table, spelled out: a registered signing certificate and a new enough version of the app; a P-256
      signing key for SHA-256, generated in the device; a locked device that booted verified; and three current
      patch levels. */
  ghost predicate MeetsTable(desc: KeyDescription, opts: Al2Options) {
    && SignedAsRegistered(desc, opts)
    && NewEnough(desc, opts)
    && MeetsParameters(desc)
    && desc.rootOfTrust == Some(RootOfTrust(true, 0))
    && Between(desc.osPatchLevel, LimitsAt(opts.now).osFloor, LimitsAt(opts.now).osCeiling)
    && Between(desc.vendorPatchLevel, LimitsAt(opts.now).dayFloor, LimitsAt(opts.now).dayCeiling)
    && Between(desc.bootPatchLevel, LimitsAt(opts.now).dayFloor, LimitsAt(opts.now).dayCeiling)
  }

  predicate MeetsParameters(desc: KeyDescription) {
    && desc.purposes.Some? && 2 in desc.purposes.value
    && desc.algorithm == Some(3)
    && desc.keySize == Some(256)
    && desc.digests.Some? && 4 in desc.digests.value
    && desc.ecCurve == Some(1)
    && desc.origin == Some(0)
  }

  lemma AppMeans(desc: KeyDescription, opts: Al2Options)
    ensures SomeDigestMatches(desc, opts) <==> SignedAsRegistered(desc, opts)
    ensures opts.minAppVersionCode.Some? ==>
              (VersionReached(desc, opts.packageName, opts.minAppVersionCode.value) <==> NewEnough(desc, opts))
  {
    if SomeDigestMatches(desc, opts) {
      var got :| got in desc.appSigningCertDigests && got in opts.signingCertSha256Digests;
      var i :| 0 <= i < |desc.appSigningCertDigests| && desc.appSigningCertDigests[i] == got;
      var j :| 0 <= j < |opts.signingCertSha256Digests| && opts.signingCertSha256Digests[j] == got;
    }
    if exists i, j | 0 <= i < |desc.appSigningCertDigests| && 0 <= j < |opts.signingCertSha256Digests| ::
         desc.appSigningCertDigests[i] == opts.signingCertSha256Digests[j]
    {
      var i, j :| 0 <= i < |desc.appSigningCertDigests| && 0 <= j < |opts.signingCertSha256Digests|
                  && desc.appSigningCertDigests[i] == opts.signingCertSha256Digests[j];
      assert desc.appSigningCertDigests[i] in desc.appSigningCertDigests;
    }
    if opts.minAppVersionCode.Some? && VersionReached(desc, opts.packageName, opts.minAppVersionCode.value) {
      var p :| p in desc.appPackages && p.name == opts.packageName && p.version.Some?
               && p.version.value >= opts.minAppVersionCode.value;
      var i :| 0 <= i < |desc.appPackages| && desc.appPackages[i] == p;
      assert desc.appPackages[i] == AppPackage(opts.packageName, Some(p.version.value));
    }
    if opts.minAppVersionCode.Some? && exists i, v: int | 0 <= i < |desc.appPackages| ::
         desc.appPackages[i] == AppPackage(opts.packageName, Some(v)) && v >= opts.minAppVersionCode.value
    {
      var i, v: int :| 0 <= i < |desc.appPackages|
                       && desc.appPackages[i] == AppPackage(opts.packageName, Some(v)) && v >= opts.minAppVersionCode.value;
      assert desc.appPackages[i] in desc.appPackages;
    }
  }

  lemma ParametersMean(desc: KeyDescription)
    ensures (forall row :: !FailsParameterRow(row, desc)) <==> MeetsParameters(desc)
  {
    if forall row :: !FailsParameterRow(row, desc) {
      assert !FailsParameterRow(KeyPurpose, desc) && !FailsParameterRow(KeyAlgorithm, desc);
      assert !FailsParameterRow(KeySize, desc) && !FailsParameterRow(KeyDigest, desc);
      assert !FailsParameterRow(KeyCurve, desc) && !FailsParameterRow(KeyOrigin, desc);
    }
  }

  lemma RootMeans(root: Option<RootOfTrust>)
    ensures (forall row :: !FailsRootRow(row, root)) <==> root == Some(RootOfTrust(true, 0))
  {
    if forall row :: !FailsRootRow(row, root) {
      assert !FailsRootRow(RootOfTrustMissing, root) && !FailsRootRow(DeviceNotLocked, root);
      assert !FailsRootRow(VerifiedBootNotVerified, root);
    }
  }

  lemma AppRowsMean(desc: KeyDescription, opts: Al2Options)
    ensures (forall row :: !FailsAppRow(row, desc, opts)) <==>
              && SomeDigestMatches(desc, opts)
              && (opts.minAppVersionCode.Some? ==> VersionReached(desc, opts.packageName, opts.minAppVersionCode.value))
  {
    if forall row :: !FailsAppRow(row, desc, opts) {
      assert !FailsAppRow(AppSigningCertMismatch, desc, opts) && !FailsAppRow(AppVersionBelowFloor, desc, opts);
    }
  }

  lemma NoRowFails(desc: KeyDescription, opts: Al2Options, lim: Limits)
    ensures (forall row :: !FailsWithin(row, desc, opts, lim)) <==>
              && (forall row :: !FailsAppRow(row, desc, opts))
              && (forall row :: !FailsParameterRow(row, desc))
              && (forall row :: !FailsRootRow(row, desc.rootOfTrust))
              && (forall row :: !FailsPatchRow(row, desc, lim))
  {
    if forall row :: !FailsWithin(row, desc, opts, lim) {
      forall row
        ensures !FailsAppRow(row, desc, opts) && !FailsParameterRow(row, desc)
        ensures !FailsRootRow(row, desc.rootOfTrust) && !FailsPatchRow(row, desc, lim)
      {
        assert !FailsWithin(row, desc, opts, lim);
      }
    }
  }

  /** No row fails exactly when the table is met. */
  lemma TableMeans(desc: KeyDescription, opts: Al2Options)
    ensures (forall row :: !FailsWithin(row, desc, opts, LimitsAt(opts.now))) <==> MeetsTable(desc, opts)
  {
    NoRowFails(desc, opts, LimitsAt(opts.now));
    AppRowsMean(desc, opts);
    AppMeans(desc, opts);
    ParametersMean(desc);
    RootMeans(desc.rootOfTrust);
    PatchRowsInLimits(desc, LimitsAt(opts.now));
  }

  predicate Older(level: Option<nat>, least: nat) {
    level.Some? && level.value < least
  }

  predicate Newer(level: Option<nat>, greatest: nat) {
    level.Some? && greatest < level.value
  }

  /** What each row of the table says when it fails. */
  ghost predicate Fails(row: Row, desc: KeyDescription, opts: Al2Options, lim: Limits) {
    match row
    case AppSigningCertMismatch => !SignedAsRegistered(desc, opts)
    case AppVersionBelowFloor => !NewEnough(desc, opts)
    case KeyPurpose => desc.purposes.None? || 2 !in desc.purposes.value
    case KeyAlgorithm => desc.algorithm != Some(3)
    case KeySize => desc.keySize != Some(256)
    case KeyDigest => desc.digests.None? || 4 !in desc.digests.value
    case KeyCurve => desc.ecCurve != Some(1)
    case KeyOrigin => desc.origin != Some(0)
    case RootOfTrustMissing => desc.rootOfTrust.None?
    case DeviceNotLocked => desc.rootOfTrust.Some? && !desc.rootOfTrust.value.deviceLocked
    case VerifiedBootNotVerified => desc.rootOfTrust.Some? && desc.rootOfTrust.value.verifiedBootState != 0
    case OsPatchMissing => desc.osPatchLevel.None?
    case OsPatchStale => Older(desc.osPatchLevel, lim.osFloor)
    case OsPatchFuture => Newer(desc.osPatchLevel, lim.osCeiling)
    case VendorPatchMissing => desc.vendorPatchLevel.None?
    case VendorPatchStale => Older(desc.vendorPatchLevel, lim.dayFloor)
    case VendorPatchFuture => Newer(desc.vendorPatchLevel, lim.dayCeiling)
    case BootPatchMissing => desc.bootPatchLevel.None?
    case BootPatchStale => Older(desc.bootPatchLevel, lim.dayFloor)
    case BootPatchFuture => Newer(desc.bootPatchLevel, lim.dayCeiling)
  }

  lemma FailsIff(row: Row, desc: KeyDescription, opts: Al2Options, lim: Limits)
    ensures FailsWithin(row, desc, opts, lim) <==> Fails(row, desc, opts, lim)
  {
    if Rank(row) < 2 {
      FailsAppIff(row, desc, opts, lim);
    } else if Rank(row) < 11 {
      FailsKeyIff(row, desc, opts, lim);
    } else {
      FailsPatchIff(row, desc, opts, lim);
    }
  }

  lemma FailsAppIff(row: Row, desc: KeyDescription, opts: Al2Options, lim: Limits)
    requires Rank(row) < 2
    ensures FailsWithin(row, desc, opts, lim) <==> Fails(row, desc, opts, lim)
  {
    assert !FailsPatchRow(row, desc, lim);
    AppMeans(desc, opts);
  }

  lemma FailsKeyIff(row: Row, desc: KeyDescription, opts: Al2Options, lim: Limits)
    requires 2 <= Rank(row) < 11
    ensures FailsWithin(row, desc, opts, lim) <==> Fails(row, desc, opts, lim)
  {
    assert !FailsPatchRow(row, desc, lim) && !FailsAppRow(row, desc, opts);
  }

  lemma FailsPatchIff(row: Row, desc: KeyDescription, opts: Al2Options, lim: Limits)
    requires Rank(row) >= 11
    ensures FailsWithin(row, desc, opts, lim) <==> Fails(row, desc, opts, lim)
  {
    assert !FailsKeyRow(row, desc, opts);
  }

  /** The limits are real months and days: three months back and one ahead, 90 days back and 31 ahead. */
  lemma LimitsAreDates(now: nat, today: Date)
    requires FallsOn(now, today)
    ensures MonthAt(LimitsAt(now).osFloor, today, -3) && MonthAt(LimitsAt(now).osCeiling, today, 1)
    ensures DayAt(LimitsAt(now).dayFloor, today, -90) && DayAt(LimitsAt(now).dayCeiling, today, 31)
  {
    DateOfToday(now, today);
    RecentYear(now);
    MonthBack(now, 3);
    MonthBack(now, -1);
    DayBack(now, 90);
    DayBack(now, -31);
  }

  /** `level` writes the month this many months after today's. */
  ghost predicate MonthAt(level: nat, today: Date, months: int) {
    exists year: nat, month: nat ::
      WritesMonth(level, year, month) && year * 12 + month == today.year * 12 + today.month + months
  }

  predicate WritesMonth(level: nat, year: nat, month: nat) {
    1 <= month <= 12 && level == year * 100 + month
  }

  /** `level` writes the day this many days after today. */
  ghost predicate DayAt(level: nat, today: Date, days: int)
    requires Valid(today)
  {
    exists d :: Valid(d) && level == d.year * 10000 + d.month * 100 + d.day && DayNumber(d) == DayNumber(today) + days
  }

  lemma MonthBack(now: nat, monthsBack: int)
    requires -1000 <= monthsBack <= 1000
    ensures MonthAt(YyyymmFloor(now, monthsBack), DateOfMoment(now), -monthsBack)
  {
    var d := DateOfMoment(now);
    RecentYear(now);
    var m := d.month - 1 - monthsBack;
    var year: nat, month: nat := d.year + m / 12, m % 12 + 1;
    assert WritesMonth(YyyymmFloor(now, monthsBack), year, month);
    assert year * 12 + month == d.year * 12 + d.month - monthsBack;
  }

  lemma DayBack(now: nat, daysBack: int)
    requires -1000 <= daysBack <= 1000 && Valid(DateOfMoment(now))
    ensures DayAt(YyyymmddFloor(now, daysBack), DateOfMoment(now), -daysBack)
  {
    ShiftDays(now, daysBack);
    NumberOfCivil(DayOfMoment(now - daysBack * MS_PER_DAY));
    NumberOfCivil(DayOfMoment(now));
    var d := DateOfMoment(now - daysBack * MS_PER_DAY);
    assert Valid(d) && DayNumber(d) == DayNumber(DateOfMoment(now)) - daysBack;
  }

  /** When the stale-patch rows fail. */
  lemma StaleRows(desc: KeyDescription, opts: Al2Options, lim: Limits)
    ensures FailsWithin(OsPatchStale, desc, opts, lim) <==> Below(desc.osPatchLevel, lim.osFloor)
    ensures FailsWithin(VendorPatchStale, desc, opts, lim) <==> Below(desc.vendorPatchLevel, lim.dayFloor)
    ensures FailsWithin(BootPatchStale, desc, opts, lim) <==> Below(desc.bootPatchLevel, lim.dayFloor)
  {
  }

  method Judge(desc: KeyDescription, failures: seq<Row>, ghost opts: Al2Options, ghost lim: Limits)
    returns (verdict: Verdict)
    requires forall row :: row in failures <==> FailsWithin(row, desc, opts, lim)
    requires InTableOrder(failures)
    ensures Judges(verdict, desc, opts, lim)
  {
    if |failures| == 0 {
      return Accepted;
    }
    assert failures[0] in failures;
    if forall row | row in failures :: IsStale(row) {
      assert IsStale(failures[0]);
      StaleRows(desc, opts, lim);
      var detail := StalePatchDetail(desc, failures);
      return StalePatch(failures, detail);
    }
    verdict := EvidenceFailed(failures);
  }

  /**
   The whole table. It accepts exactly when no row fails; it reports every failing row and no
   other; and it blames stale patches exactly when at least one row fails and every failing row
   is a stale-patch row, naming the os month when the os row failed and otherwise the earliest of
   the stale firmware dates.
   */
  method EnforceAl2Evidence(desc: KeyDescription, opts: Al2Options) returns (verdict: Verdict)
    ensures Judges(verdict, desc, opts, LimitsAt(opts.now))
    ensures verdict.Accepted? <==> MeetsTable(desc, opts)
    ensures !verdict.Accepted? ==> forall row :: row in verdict.failures <==> Fails(row, desc, opts, LimitsAt(opts.now))
    ensures verdict.StalePatch? <==>
              && !verdict.Accepted?
              && forall row | row in verdict.failures :: row in [OsPatchStale, VendorPatchStale, BootPatchStale]
  {
    TableMeans(desc, opts);
    FloorsBelowCeilings(opts.now);
    var lim := LimitsAt(opts.now);
    forall row
      ensures FailsWithin(row, desc, opts, lim) <==> Fails(row, desc, opts, lim)
    {
      FailsIff(row, desc, opts, lim);
    }
    var failures := AllRows(desc, opts, lim);
    verdict := Judge(desc, failures, opts, lim);
  }

  /** A patch month that reads as a real month, and a patch day that reads as a real date. */
  ghost predicate RealMonth(level: Option<nat>, year: nat, month: nat) {
    1 <= month <= 12 && level == Some(year * 100 + month)
  }

  ghost predicate RealDay(level: Option<nat>, d: Date) {
    Valid(d) && level == Some(d.year * 10000 + d.month * 100 + d.day)
  }

  /**
   Main result: for a device whose patch levels are real dates, the patch rows all hold exactly
   when the os month is within three months back and one ahead, and both firmware days are
   within 90 days back and 31 ahead, counted on the calendar.
   */
  lemma PatchRowsOnCalendar(
    desc: KeyDescription, opts: Al2Options, today: Date, year: nat, month: nat, vendor: Date, boot: Date)
    requires FallsOn(opts.now, today)
    requires RealMonth(desc.osPatchLevel, year, month)
    requires RealDay(desc.vendorPatchLevel, vendor) && RealDay(desc.bootPatchLevel, boot)
    ensures (forall row :: !FailsPatchRow(row, desc, LimitsAt(opts.now)))
            <==> && -3 <= (year * 12 + month) - (today.year * 12 + today.month) <= 1
                 && -90 <= DayNumber(vendor) - DayNumber(today) <= 31
                 && -90 <= DayNumber(boot) - DayNumber(today) <= 31
  {
    OsWindow(opts.now, today, year, month);
    FirmwareWindow(opts.now, today, vendor);
    FirmwareWindow(opts.now, today, boot);
    PatchRowsInLimits(desc, LimitsAt(opts.now));
  }

  lemma PatchRowsInLimits(desc: KeyDescription, lim: Limits)
    ensures (forall row :: !FailsPatchRow(row, desc, lim))
            <==> && desc.osPatchLevel.Some? && lim.osFloor <= desc.osPatchLevel.value <= lim.osCeiling
                 && desc.vendorPatchLevel.Some? && lim.dayFloor <= desc.vendorPatchLevel.value <= lim.dayCeiling
                 && desc.bootPatchLevel.Some? && lim.dayFloor <= desc.bootPatchLevel.value <= lim.dayCeiling
  {
    if forall row :: !FailsPatchRow(row, desc, lim) {
      assert !FailsPatchRow(OsPatchMissing, desc, lim) && !FailsPatchRow(OsPatchStale, desc, lim)
             && !FailsPatchRow(OsPatchFuture, desc, lim);
      assert !FailsPatchRow(VendorPatchMissing, desc, lim) && !FailsPatchRow(VendorPatchStale, desc, lim)
             && !FailsPatchRow(VendorPatchFuture, desc, lim);
      assert !FailsPatchRow(BootPatchMissing, desc, lim) && !FailsPatchRow(BootPatchStale, desc, lim)
             && !FailsPatchRow(BootPatchFuture, desc, lim);
    }
  }
}
