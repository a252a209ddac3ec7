/** The two configuration enumerations of the monthly trigger. */
module TriggerTypes {

  /** How a day that does not exist in a month (30 February, a fifth Saturday) is handled. */
  datatype UnrepresentableDateHandling =
    | Skip            // try later months instead
    | LastDayOfMonth  // use the last day of the same month

  /** Whether the trigger names days of the month or an nth weekday of the month. */
  datatype DayOfMonthTriggerType = SpecificDate | VariableDate
}
