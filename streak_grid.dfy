/**
 * The hour-block grid of one habit: a virtual list of `BIG_ITEM_COUNT` rows,
 * one per calendar day, with row `MID_ROW_INDEX` standing for today, and 24
 * hour blocks per row. Only the block of the current hour of today can be
 * toggled; a checked block stores the moment it was checked, and that moment
 * decides how saturated the block is drawn.
 *
 * Every operation takes one timestamp `now` for "the current time", where the
 * component reads the clock afresh in several places.
 */
module StreakGrid {
  import opened Optional
  import opened Text
  import opened Clock

  const NUM_COLS := 24
  const BOX_SIZE := 40
  const GAP := 8
  const DATE_LABEL_HEIGHT := 28
  const BIG_ITEM_COUNT := 100_000
  const MID_ROW_INDEX := 50_000

  // ---------------------------------------------------------------------------
  // Rows and days

  /** The day number shown by row `row`: today plus the row's distance from the middle row. */
  function DateForRow(row: int, now: int): (day: int)
    ensures day == Today(now) <==> row == MID_ROW_INDEX
    ensures RowForDate(day, now) == row
  {
    Today(now) + (row - MID_ROW_INDEX)
  }

  /** The row that shows day `day`: the inverse of `DateForRow`. */
  function RowForDate(day: int, now: int): int {
    day - Today(now) + MID_ROW_INDEX
  }

  lemma RowDateRoundTrip(row: int, day: int, now: int)
    ensures RowForDate(DateForRow(row, now), now) == row
    ensures DateForRow(RowForDate(day, now), now) == day
  {
  }

  /** `isToday`: the row's day is today's day. */
  predicate IsTodayRow(row: int, now: int) {
    DateForRow(row, now) == Today(now)
  }

  lemma TodayRowIsMiddleRow(row: int, now: int)
    ensures IsTodayRow(row, now) <==> row == MID_ROW_INDEX
  {
  }

  /** Only the block of the current hour in today's row can be toggled. */
  function IsUnlocked(row: int, col: int, now: int): (unlocked: bool)
    ensures unlocked <==> row == MID_ROW_INDEX && col == CurrentHour(now)
  {
    IsTodayRow(row, now) && col == CurrentHour(now)
  }

  /** Under one `now`, the grid has exactly one unlocked block. */
  lemma ExactlyOneUnlockedBlock(now: int)
    ensures (set r, c | 0 <= r < BIG_ITEM_COUNT && 0 <= c < NUM_COLS && IsUnlocked(r, c, now) :: (r, c))
            == {(MID_ROW_INDEX, CurrentHour(now))}
  {
    var unlocked := set r, c | 0 <= r < BIG_ITEM_COUNT && 0 <= c < NUM_COLS && IsUnlocked(r, c, now) :: (r, c);
    assert IsUnlocked(MID_ROW_INDEX, CurrentHour(now), now);
    assert (MID_ROW_INDEX, CurrentHour(now)) in unlocked;
    forall p | p in unlocked ensures p == (MID_ROW_INDEX, CurrentHour(now)) {
      TodayRowIsMiddleRow(p.0, now);
    }
  }

  /** Whether today's row lies within the visible rows `start..stop`. */
  predicate TodayVisible(start: int, stop: int) {
    start <= MID_ROW_INDEX && stop >= MID_ROW_INDEX
  }

  /** The visible range contains today's row exactly when some visible row shows today. */
  lemma TodayVisibleIffTodayRowShown(start: int, stop: int, now: int)
    ensures TodayVisible(start, stop) <==> exists row :: start <= row <= stop && IsTodayRow(row, now)
  {
    if TodayVisible(start, stop) {
      assert IsTodayRow(MID_ROW_INDEX, now);
    }
  }

  // ---------------------------------------------------------------------------
  // The block store

  /** The storage key of a block: `${row}-${col}`. */
  function BlockKey(row: nat, col: nat): string {
    NatToDecimal(row) + "-" + NatToDecimal(col)
  }

  /** Two different blocks never share a key. */
  lemma BlockKeyInjective(r1: nat, c1: nat, r2: nat, c2: nat)
    requires BlockKey(r1, c1) == BlockKey(r2, c2)
    ensures r1 == r2 && c1 == c2
  {
    var a1, a2 := NatToDecimal(r1), NatToDecimal(r2);
    var k1, k2 := BlockKey(r1, c1), BlockKey(r2, c2);
    DashFollowsRow(r1, c1);
    DashFollowsRow(r2, c2);
    assert |a1| == |a2|;
    assert a1 == k1[..|a1|] && a2 == k2[..|a2|];
    NatToDecimalInjective(r1, r2);
    assert NatToDecimal(c1) == k1[|a1| + 1..] && NatToDecimal(c2) == k2[|a2| + 1..];
    NatToDecimalInjective(c1, c2);
  }

  /** The first `-` of a block key comes right after the row's digits. */
  lemma DashFollowsRow(row: nat, col: nat)
    ensures var k := BlockKey(row, col);
            && k[|NatToDecimal(row)|] == '-'
            && forall i :: 0 <= i < |NatToDecimal(row)| ==> k[i] != '-'
  {
    var k := BlockKey(row, col);
    forall i | 0 <= i < |NatToDecimal(row)| ensures k[i] != '-' {
      assert k[i] == NatToDecimal(row)[i];
    }
  }

  /** `filledBlocks[key]`: the stored timestamp, or `undefined`. */
  function Lookup(store: map<string, int>, key: string): Option<int> {
    if key in store then Some(store[key]) else None
  }

  /** JavaScript truthiness of a stored number or `undefined`. */
  predicate IsTruthy(v: Option<int>) {
    v.Some? && v.value != 0
  }

  /**
   * The update a click hands to `setFilledBlocks`: a key holding a truthy
   * timestamp is removed, any other key (absent, or holding 0) is set to
   * `stamp`, the time the update runs.
   */
  function Toggle(prev: map<string, int>, key: string, stamp: int): (next: map<string, int>)
    ensures IsTruthy(Lookup(prev, key)) ==> key !in next
    ensures !IsTruthy(Lookup(prev, key)) ==> key in next && next[key] == stamp
    ensures forall k :: k != key ==> Lookup(next, k) == Lookup(prev, k)
  {
    if key in prev && prev[key] != 0 then prev - {key} else prev[key := stamp]
  }

  /** Checking and then unchecking a block that was not stored restores the store. */
  lemma ToggleTwiceRestores(prev: map<string, int>, key: string, stamp1: int, stamp2: int)
    requires key !in prev && stamp1 != 0
    ensures Toggle(Toggle(prev, key, stamp1), key, stamp2) == prev
  {
    var next := Toggle(Toggle(prev, key, stamp1), key, stamp2);
    assert next.Keys == prev.Keys;
  }

  /** A stored 0 counts as unchecked: toggling twice drops the entry instead of restoring it. */
  lemma ToggleTwiceDropsStoredZero(prev: map<string, int>, key: string, stamp1: int, stamp2: int)
    requires key in prev && prev[key] == 0 && stamp1 != 0
    ensures Toggle(Toggle(prev, key, stamp1), key, stamp2) == prev - {key}
  {
  }

  /**
   * A click on block (`row`, `col`) with `now` the time the grid was drawn and
   * `stamp` the time the update runs: a locked block issues no update, the
   * unlocked one toggles its own key.
   */
  function Click(filled: map<string, int>, row: nat, col: nat, now: int, stamp: int): (next: map<string, int>)
    ensures !IsUnlocked(row, col, now) ==> next == filled
    ensures IsUnlocked(row, col, now) ==> next == Toggle(filled, BlockKey(row, col), stamp)
  {
    if !IsUnlocked(row, col, now) then filled else Toggle(filled, BlockKey(row, col), stamp)
  }

  /** A click changes the entry of no block other than the one unlocked block. */
  lemma ClickTouchesOnlyUnlockedBlock(filled: map<string, int>, row: nat, col: nat, now: int, stamp: int, r: nat, c: nat)
    requires (r, c) != (MID_ROW_INDEX, CurrentHour(now))
    ensures Lookup(Click(filled, row, col, now, stamp), BlockKey(r, c)) == Lookup(filled, BlockKey(r, c))
  {
    if IsUnlocked(row, col, now) && BlockKey(r, c) == BlockKey(row, col) {
      BlockKeyInjective(r, c, row, col);
    }
  }

  // ---------------------------------------------------------------------------
  // Saturation

  /** How saturated a block checked `elapsed` ms into its hour is drawn; bands include their upper bound. */
  function LevelForElapsed(elapsed: int): (level: int)
    requires 0 <= elapsed <= MS_PER_HOUR
    ensures 50 <= level <= 100 && level % 10 == 0
  {
    if elapsed <= 10 * MS_PER_MINUTE then 100
    else if elapsed <= 20 * MS_PER_MINUTE then 90
    else if elapsed <= 30 * MS_PER_MINUTE then 80
    else if elapsed <= 40 * MS_PER_MINUTE then 70
    else if elapsed <= 50 * MS_PER_MINUTE then 60
    else 50
  }

  /** The ten-minute band of the hour `elapsed` falls in, counted from 0; 60 minutes belongs to the last. */
  function Band(elapsed: int): (b: int)
    requires 0 <= elapsed <= MS_PER_HOUR
    ensures 0 <= b <= 5
  {
    if elapsed == 0 then 0 else (elapsed - 1) / (10 * MS_PER_MINUTE)
  }

  /** The step function drops by 10 per band, from 100 in the first band. */
  lemma LevelIsBandStep(elapsed: int)
    requires 0 <= elapsed <= MS_PER_HOUR
    ensures LevelForElapsed(elapsed) == 100 - 10 * Band(elapsed)
  {
    var b := Band(elapsed);
    if elapsed > 0 {
      var q := (elapsed - 1) / (10 * MS_PER_MINUTE);
      assert q * (10 * MS_PER_MINUTE) <= elapsed - 1 < (q + 1) * (10 * MS_PER_MINUTE);
    }
  }

  /** Checking later in the hour never gives a more saturated block. */
  lemma LevelNonIncreasing(e1: int, e2: int)
    requires 0 <= e1 <= e2 <= MS_PER_HOUR
    ensures LevelForElapsed(e1) >= LevelForElapsed(e2)
  {
  }

  /**
   * `getSaturationLevel`: 0 for a falsy `checkedAt`, for a moment before the
   * block's hour and for one more than an hour after its start; otherwise the
   * step function of the time since the start of the block's hour.
   */
  function SaturationLevel(checkedAt: Option<int>, cellDay: int, col: int): (level: int)
    ensures level == 0 <==>
              || !IsTruthy(checkedAt)
              || checkedAt.value < HourStart(cellDay, col)
              || checkedAt.value - HourStart(cellDay, col) > MS_PER_HOUR
    ensures level != 0 ==> 50 <= level <= 100
    ensures level != 0 ==>
              && 0 <= checkedAt.value - HourStart(cellDay, col) <= MS_PER_HOUR
              && level == LevelForElapsed(checkedAt.value - HourStart(cellDay, col))
  {
    if !IsTruthy(checkedAt) then 0
    else
      var diffMs := checkedAt.value - HourStart(cellDay, col);
      if diffMs < 0 || diffMs > MS_PER_HOUR then 0 else LevelForElapsed(diffMs)
  }

  /**
   * A block checked the moment the grid was drawn, in the unlocked block,
   * carries that moment and is scored by how far into the hour it is.
   */
  lemma FreshCheckIsScored(filled: map<string, int>, now: int)
    requires now != 0
    requires !IsTruthy(Lookup(filled, BlockKey(MID_ROW_INDEX, CurrentHour(now))))
    ensures var key := BlockKey(MID_ROW_INDEX, CurrentHour(now));
            var next := Click(filled, MID_ROW_INDEX, CurrentHour(now), now, now);
            && Lookup(next, key) == Some(now)
            && SaturationLevel(Lookup(next, key), DateForRow(MID_ROW_INDEX, now), CurrentHour(now))
               == LevelForElapsed(now - HourStart(Today(now), CurrentHour(now)))
  {
    CurrentHourContainsNow(now);
    assert IsUnlocked(MID_ROW_INDEX, CurrentHour(now), now);
  }

  /** 2024-01-01 10:03:00: a check three minutes into the hour is drawn at full saturation. */
  lemma ScenarioPromptCheck(filled: map<string, int>)
    requires BlockKey(MID_ROW_INDEX, 10) !in filled
    ensures var now := Timestamp(Instant(19723, 10, 3, 0, 0));
            var next := Click(filled, MID_ROW_INDEX, 10, now, now);
            && Lookup(next, BlockKey(MID_ROW_INDEX, 10)) == Some(now)
            && SaturationLevel(Lookup(next, BlockKey(MID_ROW_INDEX, 10)), DateForRow(MID_ROW_INDEX, now), 10) == 100
  {
    var now := Timestamp(Instant(19723, 10, 3, 0, 0));
    InstantOfTimestamp(Instant(19723, 10, 3, 0, 0));
    FreshCheckIsScored(filled, now);
  }

  /** 2024-01-01 10:58:00: a check 58 minutes into the hour is drawn in the last band. */
  lemma ScenarioLateCheck(filled: map<string, int>)
    requires BlockKey(MID_ROW_INDEX, 10) !in filled
    ensures var now := Timestamp(Instant(19723, 10, 58, 0, 0));
            var next := Click(filled, MID_ROW_INDEX, 10, now, now);
            SaturationLevel(Lookup(next, BlockKey(MID_ROW_INDEX, 10)), DateForRow(MID_ROW_INDEX, now), 10) == 50
  {
    var now := Timestamp(Instant(19723, 10, 58, 0, 0));
    InstantOfTimestamp(Instant(19723, 10, 58, 0, 0));
    FreshCheckIsScored(filled, now);
  }

  // ---------------------------------------------------------------------------
  // Layout

  const TOTAL_GAP := GAP * (NUM_COLS - 1)

  /**
   * `Math.floor((containerWidth - totalGap) / NUM_COLS) || BOX_SIZE`: the
   * floor, unless it is 0, which is falsy and gives the fixed box size.
   */
  function BoxSize(containerWidth: int): (b: int)
    ensures TOTAL_GAP <= containerWidth < TOTAL_GAP + NUM_COLS ==> b == BOX_SIZE
    ensures !(TOTAL_GAP <= containerWidth < TOTAL_GAP + NUM_COLS) ==>
              b != 0 && NUM_COLS * b <= containerWidth - TOTAL_GAP < NUM_COLS * (b + 1)
  {
    var f := (containerWidth - TOTAL_GAP) / NUM_COLS;
    if f == 0 then BOX_SIZE else f
  }

  function RowWidth(containerWidth: int): int {
    NUM_COLS * BoxSize(containerWidth) + TOTAL_GAP
  }

  function RowHeight(containerWidth: int): int {
    BoxSize(containerWidth) + DATE_LABEL_HEIGHT + GAP
  }

  /**
   * The 24 boxes and their gaps fit the container except where the fallback
   * box size applies; from 208 px on they leave less than one column spare.
   */
  lemma RowWidthFits(containerWidth: int)
    ensures RowWidth(containerWidth) <= containerWidth <==> !(TOTAL_GAP <= containerWidth < TOTAL_GAP + NUM_COLS)
    ensures containerWidth >= TOTAL_GAP + NUM_COLS ==> containerWidth - RowWidth(containerWidth) < NUM_COLS
    ensures RowWidth(containerWidth) == NUM_COLS * (RowHeight(containerWidth) - DATE_LABEL_HEIGHT - GAP) + TOTAL_GAP
  {
  }

  /** An unmeasured container (width 0) gives a negative box size, not the fallback. */
  lemma UnmeasuredBoxSize()
    ensures BoxSize(0) == -8
  {
  }

  /** A 1200 px container: boxes of 42 px in a 1192 px row. */
  lemma ScenarioResize()
    ensures BoxSize(1200) == 42 && RowWidth(1200) == 1192 && RowHeight(1200) == 78
  {
  }

  // ---------------------------------------------------------------------------
  // Countdown

  /** `msToNextHour`: milliseconds from `now` to the top of the next hour. */
  function MsToNextHour(now: int): (ms: int)
    ensures 1 <= ms <= MS_PER_HOUR
    ensures now + ms == HourStart(Today(now), CurrentHour(now)) + MS_PER_HOUR
  {
    var i := InstantOf(now);
    (60 - i.minute) * 60 * 1000 - i.second * 1000 - i.millis
  }

  /** `formatTime`: `''` for `null`, otherwise whole seconds (negatives clamped) as `m:ss`. */
  function FormatTime(ms: Option<int>): (s: string)
    ensures s == "" <==> ms.None?
  {
    match ms
    case None => ""
    case Some(v) => MinSecText(WholeSeconds(v))
  }

  /** `Math.max(0, Math.floor(ms / 1000))`. */
  function WholeSeconds(ms: int): (seconds: nat)
    ensures ms >= 0 ==> seconds * 1000 <= ms < (seconds + 1) * 1000
    ensures ms < 1000 ==> seconds == 0
  {
    if ms / 1000 < 0 then 0 else ms / 1000
  }

  /** `${min}:${sec.toString().padStart(2, '0')}` for the minutes and seconds of `totalSeconds`. */
  function MinSecText(totalSeconds: nat): string {
    NatToDecimal(totalSeconds / 60) + ":" + PadStart2(NatToDecimal(totalSeconds % 60))
  }

  /** Reading `m:ss` back gives the whole seconds that were left, `ss` being below 60. */
  lemma FormatTimeReadsBack(ms: int)
    ensures var s := FormatTime(Some(ms));
            && |s| >= 4 && s[|s| - 3] == ':'
            && AllDigits(s[..|s| - 3]) && AllDigits(s[|s| - 2..])
            && DecimalValue(s[|s| - 2..]) < 60
            && DecimalValue(s[..|s| - 3]) * 60 + DecimalValue(s[|s| - 2..]) == if ms < 0 then 0 else ms / 1000
  {
    assert WholeSeconds(ms) == if ms < 0 then 0 else ms / 1000;
    assert FormatTime(Some(ms)) == MinSecText(WholeSeconds(ms));
    MinSecTextReadsBack(WholeSeconds(ms));
  }

  lemma MinSecTextReadsBack(totalSeconds: nat)
    ensures var s := MinSecText(totalSeconds);
            && |s| >= 4 && s[|s| - 3] == ':'
            && AllDigits(s[..|s| - 3]) && AllDigits(s[|s| - 2..])
            && DecimalValue(s[|s| - 2..]) < 60
            && DecimalValue(s[..|s| - 3]) * 60 + DecimalValue(s[|s| - 2..]) == totalSeconds
  {
    var m, sec := totalSeconds / 60, totalSeconds % 60;
    MinSecDigits(m, sec);
    SplitAtColon(NatToDecimal(m), PadStart2(NatToDecimal(sec)));
  }

  /** The two parts of `m:ss` read back as the minutes and the seconds. */
  lemma MinSecDigits(m: nat, sec: nat)
    requires sec < 60
    ensures AllDigits(NatToDecimal(m)) && DecimalValue(NatToDecimal(m)) == m
    ensures var p := PadStart2(NatToDecimal(sec)); |p| == 2 && AllDigits(p) && DecimalValue(p) == sec
  {
    if sec >= 10 {
      assert |NatToDecimal(sec / 10)| == 1;
    }
    DecimalRoundTrip(m);
    DecimalRoundTrip(sec);
    PadStart2Value(NatToDecimal(sec));
  }

  lemma SplitAtColon(d: string, p: string)
    requires |p| == 2
    ensures var s := d + ":" + p; s[..|s| - 3] == d && s[|s| - 2..] == p && s[|s| - 3] == ':'
  {
  }

  // ---------------------------------------------------------------------------
  // Component state

  /** The per-row countdown state: `timeLeft`, started when the row mounts and refreshed each second. */
  class RowCountdown {
    const isToday: bool
    var timeLeft: Option<int>

    ghost predicate Valid()
      reads this
    {
      && (timeLeft.Some? <==> isToday)
      && (timeLeft.Some? ==> 1 <= timeLeft.value <= MS_PER_HOUR)
    }

    /** Mounting row `row` at `now`: a countdown for today's row only. */
    constructor (row: int, now: int)
      ensures Valid()
      ensures isToday == IsTodayRow(row, now)
      ensures timeLeft == if isToday then Some(MsToNextHour(now)) else None
    {
      isToday := IsTodayRow(row, now);
      timeLeft := if IsTodayRow(row, now) then Some(MsToNextHour(now)) else None;
    }

    /** The one-second interval callback, which exists only for today's row. */
    method Tick(now: int)
      requires Valid()
      modifies this
      ensures Valid()
      ensures timeLeft == if isToday then Some(MsToNextHour(now)) else old(timeLeft)
    {
      if isToday {
        timeLeft := Some(MsToNextHour(now));
      }
    }

    /** The text on the row's unlocked block: empty exactly for a row that is not today. */
    function TimerLabel(): (s: string)
      reads this
      requires Valid()
      ensures s == "" <==> !isToday
    {
      FormatTime(timeLeft)
    }
  }

  /** The grid's own state: the measured container and whether "Jump Today" is shown. */
  class Viewport {
    var containerWidth: int
    var containerHeight: int
    var showScrollToToday: bool

    constructor ()
      ensures containerWidth == 0 && containerHeight == 0 && !showScrollToToday
    {
      containerWidth, containerHeight, showScrollToToday := 0, 0, false;
    }

    /** `updateSize`, run on layout and on every window resize. */
    method UpdateSize(width: nat, height: nat)
      modifies this
      ensures containerWidth == width && containerHeight == height
      ensures showScrollToToday == old(showScrollToToday)
    {
      containerWidth, containerHeight := width, height;
    }

    /** `handleItemsRendered`: show "Jump Today" exactly when today's row is out of view. */
    method HandleItemsRendered(visibleStartIndex: int, visibleStopIndex: int)
      modifies this
      ensures showScrollToToday == !TodayVisible(visibleStartIndex, visibleStopIndex)
      ensures containerWidth == old(containerWidth) && containerHeight == old(containerHeight)
    {
      showScrollToToday := !TodayVisible(visibleStartIndex, visibleStopIndex);
    }

    /** The list is drawn only once both dimensions are measured. */
    predicate IsListShown()
      reads this
    {
      containerWidth > 0 && containerHeight > 0
    }
  }
}
