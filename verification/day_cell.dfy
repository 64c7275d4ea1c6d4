/**
  The style decisions of one day cell of the month view: its background, the
  colour of its number, and whether it reacts to touch.
 */
module DayCell {

  datatype Background = EntryBackground | TodayBackground | DisabledBackground

  datatype TextStyle = BrightText | DimmedText

  /** The touchable's `disabled` flag and its `activeOpacity` in tenths
      (0.6 is 6, 1 is 10). */
  datatype Touch = Touch(disabled: bool, activeOpacityTenths: int)

  /** `getDayStyle`: an entry wins over today, and anything else is dimmed. */
  function DayBackground(hasEntry: bool, isToday: bool): (b: Background)
    ensures hasEntry ==> b == EntryBackground
    ensures !hasEntry && isToday ==> b == TodayBackground
    ensures b == DisabledBackground <==> !hasEntry && !isToday
  {
    if hasEntry then EntryBackground
    else if isToday then TodayBackground
    else DisabledBackground
  }

  /** `getTextStyle`. */
  function DayText(hasEntry: bool, isToday: bool): (t: TextStyle)
    ensures t == BrightText <==> hasEntry || isToday
  {
    if hasEntry || isToday then BrightText else DimmedText
  }

  /** `disabled={isFuture}` and `activeOpacity={!isFuture ? 0.6 : 1}`. */
  function DayTouch(isFuture: bool): (t: Touch)
    ensures t.disabled <==> isFuture
    ensures t.activeOpacityTenths == (if isFuture then 10 else 6)
  {
    Touch(isFuture, if !isFuture then 6 else 10)
  }

  /** The two decisions agree: the number is bright exactly on a coloured
      background, whatever the flags. */
  lemma BrightTextOnColouredBackground(hasEntry: bool, isToday: bool)
    ensures DayText(hasEntry, isToday) == BrightText
        <==> DayBackground(hasEntry, isToday) != DisabledBackground
  {
  }

  /** A touchable cell shows press feedback; a disabled one shows none. */
  lemma FeedbackOnlyWhenTouchable(isFuture: bool)
    ensures DayTouch(isFuture).disabled <==> DayTouch(isFuture).activeOpacityTenths == 10
  {
  }

}
