/** The records the pages read from the OpenF1 REST API, reduced to the fields
    the page logic looks at. ISO-8601 date strings are represented by the
    millisecond timestamp `new Date(...).getTime()` gives for them. A
    missing, `null` or empty `headshot_url` or country code is represented
    by `""`, since the code only tests those with `!`, which treats the three
    alike; a missing `full_name` is not represented (the name comparison
    of the standings sort would throw on it). */
module OpenF1 {

  /** A competitor as returned by `/v1/drivers`. */
  datatype Driver = Driver(
    driverNumber: int,
    fullName: string,
    nameAcronym: string,
    teamName: string,
    teamColour: string,
    headshotUrl: string,
    countryCode: string)

  /** One session (practice, qualifying, race) as returned by `/v1/sessions`. */
  datatype Session = Session(
    sessionKey: int,
    sessionName: string,
    dateStart: int,
    meetingKey: int,
    circuitShortName: string,
    year: int)

  /** One timestamped classification report as returned by `/v1/position`. */
  datatype Position = Position(
    date: int,
    driverNumber: int,
    meetingKey: int,
    position: int,
    sessionKey: int)

  /** One race weekend as returned by `/v1/meetings`. */
  datatype Meeting = Meeting(
    circuitKey: int,
    circuitShortName: string,
    countryCode: string,
    countryName: string,
    dateStart: int,
    location: string,
    meetingKey: int,
    meetingName: string,
    year: int)

  /** The value of the `positions` or `data` property of an object body:
      absent or `null`, a JSON array of position records, or any other JSON
      value (a number, a string, a boolean, an object). */
  datatype PositionsField = Missing | Records(records: seq<Position>) | NotAList

  /** The parsed body of a `/v1/position` response: a bare array, an object
      (only its `positions` and `data` properties matter), or a scalar /
      `null`. */
  datatype PositionsBody =
    | ArrayBody(records: seq<Position>)
    | ObjectBody(positions: PositionsField, data: PositionsField)
    | ScalarBody

  function DriverNumberOf(d: Driver): int { d.driverNumber }

  function CircuitKeyOf(m: Meeting): int { m.circuitKey }
}
