/**
 * AppPreference: a typed key-value store over the platform's shared
 * preferences, holding the account token (through an `encrypt`/`decrypt`
 * pair that does not transform yet), the version of the last app start,
 * and the time the update question was last asked.
 *
 * The preference file is an in-memory value; an absent key reads as the
 * getter's default. Java's `int` and `long` are written out with their
 * two's-complement wrap-around.
 */
module AppPreference {
  import opened Common

  /** Java's 32-bit `int`. */
  newtype Int = x: int | -0x8000_0000 <= x < 0x8000_0000

  /** Java's 64-bit `long`. */
  newtype Long = x: int | -0x8000_0000_0000_0000 <= x < 0x8000_0000_0000_0000

  /** The `int` that an exact integer result wraps to. */
  function WrapInt(x: int): (r: Int)
    ensures -0x8000_0000 <= x < 0x8000_0000 ==> r as int == x
    ensures (r as int - x) % 0x1_0000_0000 == 0
  {
    ((x + 0x8000_0000) % 0x1_0000_0000 - 0x8000_0000) as Int
  }

  /** The `long` that an exact integer result wraps to. */
  function WrapLong(x: int): (r: Long)
    ensures -0x8000_0000_0000_0000 <= x < 0x8000_0000_0000_0000 ==> r as int == x
    ensures (r as int - x) % 0x1_0000_0000_0000_0000 == 0
  {
    ((x + 0x8000_0000_0000_0000) % 0x1_0000_0000_0000_0000 - 0x8000_0000_0000_0000) as Long
  }

  const MaxLong: int := 0x7FFF_FFFF_FFFF_FFFF

  /**
   * NEW_UPATE_QUESTION_TIME_INTERVAL, `1000 * 60 * 60 * 24 * 3l`: three
   * `int` products, then one `long` product.
   */
  const UpdateQuestionInterval: Long :=
    WrapLong(WrapInt(WrapInt(WrapInt(1000 * 60) as int * 60) as int * 24) as int * 3)

  /** The `int` products do not wrap: the interval is three days in milliseconds. */
  lemma IntervalIsThreeDays()
    ensures UpdateQuestionInterval as int == 3 * 24 * 60 * 60 * 1000
    ensures UpdateQuestionInterval as int == 259_200_000
  {
  }

  /** The stored preference values; None is an absent key. */
  datatype Settings = Settings(
    token: Option<string>,               // "token"
    lastAppStartVersion: Option<Int>,    // "lastappstartversion"
    lastUpdateQuestion: Option<Long>)    // "lastupdatequestiontime"

  /** A preference file nothing was written to. */
  const Fresh := Settings(None, None, None)

  /** The placeholder `encrypt`: returns its argument. */
  function Encrypt(data: string): string { data }

  /** The placeholder `decrypt`: returns its argument. */
  function Decrypt(data: string): string { data }

  /** `decrypt` undoes `encrypt`. */
  lemma DecryptEncrypt(data: string)
    ensures Decrypt(Encrypt(data)) == data
  {
  }

  /**
   * setToken: stores the encrypted token. Storing null removes the key,
   * as the platform's preference editor does for a null string.
   */
  function SetToken(s: Settings, token: Option<string>): (r: Settings)
    ensures r.token.Some? <==> token.Some?
    ensures r.lastAppStartVersion == s.lastAppStartVersion && r.lastUpdateQuestion == s.lastUpdateQuestion
  {
    match token
    case None => s.(token := None)
    case Some(t) => s.(token := Some(Encrypt(t)))
  }

  /** getToken: null when no token is stored, else the decrypted token. */
  function GetToken(s: Settings): (r: Option<string>)
    ensures r.None? <==> s.token.None?
  {
    match s.token
    case None => None
    case Some(t) => Some(Decrypt(t))
  }

  /** Reading the token back returns what was set, null included; nothing is stored before any set. */
  lemma TokenRoundTrip(s: Settings, token: Option<string>)
    ensures GetToken(SetToken(s, token)) == token
    ensures GetToken(Fresh) == None
  {
    if token.Some? {
      DecryptEncrypt(token.value);
    }
  }

  /** getLastAppStartVersion: 0 until a version is stored. */
  function GetLastAppStartVersion(s: Settings): (r: Int)
    ensures s.lastAppStartVersion.None? ==> r == 0
    ensures s.lastAppStartVersion.Some? ==> r == s.lastAppStartVersion.value
  {
    match s.lastAppStartVersion
    case None => 0
    case Some(v) => v
  }

  function SetLastAppStartVersion(s: Settings, version: Int): (r: Settings)
    ensures r.token == s.token && r.lastUpdateQuestion == s.lastUpdateQuestion
  {
    s.(lastAppStartVersion := Some(version))
  }

  /** The version read back is the last one stored, whatever came before. */
  lemma LastAppStartVersionRoundTrip(s: Settings, v1: Int, v2: Int)
    ensures GetLastAppStartVersion(SetLastAppStartVersion(s, v1)) == v1
    ensures GetLastAppStartVersion(SetLastAppStartVersion(SetLastAppStartVersion(s, v1), v2)) == v2
    ensures GetLastAppStartVersion(Fresh) == 0
  {
  }

  /** getLastAppUpdateQuestion: 0 until a time is stored. */
  function LastUpdateQuestion(s: Settings): Long
  {
    match s.lastUpdateQuestion
    case None => 0
    case Some(t) => t
  }

  function SetLastAppUpdateQuestion(s: Settings, time: Long): (r: Settings)
    ensures r.token == s.token && r.lastAppStartVersion == s.lastAppStartVersion
    ensures LastUpdateQuestion(r) == time
  {
    s.(lastUpdateQuestion := Some(time))
  }

  /**
   * shouldUpdateQuestionShowed: the last question time plus the interval,
   * a `long` sum, is strictly before `currentTime`. While the sum does not
   * overflow this is the plain comparison; the default time is 0.
   */
  function ShouldUpdateQuestionShowed(s: Settings, currentTime: Long): (r: bool)
    ensures LastUpdateQuestion(s) as int <= MaxLong - 259_200_000 ==>
              (r <==> LastUpdateQuestion(s) as int + 259_200_000 < currentTime as int)
    ensures s.lastUpdateQuestion.None? ==> (r <==> 259_200_000 < currentTime as int)
  {
    IntervalIsThreeDays();
    WrapLong(LastUpdateQuestion(s) as int + UpdateQuestionInterval as int) < currentTime
  }

  /** Once the question is due it stays due as time goes on, overflow or not. */
  lemma ShouldUpdateMonotone(s: Settings, t1: Long, t2: Long)
    requires t1 <= t2
    ensures ShouldUpdateQuestionShowed(s, t1) ==> ShouldUpdateQuestionShowed(s, t2)
  {
  }

  /**
   * A question time within the interval of the largest `long` overflows
   * the sum, which wraps to a large negative number: the question is then
   * due at once, even at time 0.
   */
  lemma OverflowMakesQuestionDue()
    ensures ShouldUpdateQuestionShowed(SetLastAppUpdateQuestion(Fresh, MaxLong as Long), 0)
  {
    IntervalIsThreeDays();
    assert WrapLong(MaxLong + 259_200_000) as int == MaxLong + 259_200_000 - 0x1_0000_0000_0000_0000;
  }
}
