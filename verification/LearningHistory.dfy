/** The per-(user, word) learning record, its status enumeration, and the
    quiz outcome tokens a client submits. */
module LearningHistory {
  import opened Common

  /** User and word identifiers are opaque keys; a UUID is identified with
      its canonical string form. */
  type UserId = string
  type WordId = string

  /** Instants and durations are whole seconds on an injected clock. */
  type Instant = int

  /** Go's zero `time.Time`, the value an uninitialised timestamp holds. */
  const ZeroTime: Instant := 0

  /** The learning status of a record, in order of progression. */
  datatype LearningStatus = New | Learning | Reviewing | Mastered

  /** Position of a status in the progression New, Learning, Reviewing,
      Mastered. */
  function Rank(s: LearningStatus): nat
  {
    match s
    case New => 0
    case Learning => 1
    case Reviewing => 2
    case Mastered => 3
  }

  /** The string stored in the database for each status. */
  function StatusName(s: LearningStatus): string
  {
    match s
    case New => "NEW"
    case Learning => "LEARNING"
    case Reviewing => "REVIEWING"
    case Mastered => "MASTERED"
  }

  /** Reads a stored status back; any other string is not a status. */
  function ParseStatusName(name: string): (r: Option<LearningStatus>)
    ensures r.Some? ==> StatusName(r.value) == name
  {
    if name == "NEW" then Some(New)
    else if name == "LEARNING" then Some(Learning)
    else if name == "REVIEWING" then Some(Reviewing)
    else if name == "MASTERED" then Some(Mastered)
    else None
  }

  /** The four stored names are pairwise different and each reads back as
      the status it names, so the enumeration has exactly four values. */
  lemma StatusNameRoundTrip(s: LearningStatus)
    ensures ParseStatusName(StatusName(s)) == Some(s)
    ensures forall t: LearningStatus :: StatusName(t) == StatusName(s) ==> t == s
  {
  }

  /** The outcome of one quiz question. The token is an arbitrary JSON
      string: anything other than the three known tokens is kept as
      `Unrecognised`. */
  datatype ResultStatus = Success | Error | Unanswered | Unrecognised(token: string)
  {
    /** One of the three tokens the scheduler acts on. */
    predicate Valid()
    {
      !Unrecognised?
    }
  }

  /** The token as it appears in a request body. */
  function ResultToken(r: ResultStatus): string
  {
    match r
    case Success => "SUCCESS"
    case Error => "ERROR"
    case Unanswered => "UNANSWERED"
    case Unrecognised(t) => t
  }

  /** Classifies a request token. */
  function ParseResultToken(token: string): (r: ResultStatus)
    ensures ResultToken(r) == token
    ensures r.Valid() <==> token in {"SUCCESS", "ERROR", "UNANSWERED"}
  {
    if token == "SUCCESS" then Success
    else if token == "ERROR" then Error
    else if token == "UNANSWERED" then Unanswered
    else Unrecognised(token)
  }

  /** One entry of a submitted quiz. */
  datatype QuizResult = QuizResult(wordId: WordId, status: ResultStatus)

  /** The learning history of one user for one word. */
  datatype History = History(
    userId: UserId,
    wordId: WordId,
    lastViewedAt: Instant,
    nextReviewDate: Instant,
    answerCount: nat,
    nbSuccess: nat,
    nbErrors: nat,
    nbUnanswered: nat,
    currentStreak: nat,
    bestStreak: nat,
    status: LearningStatus)

  /** Number of answers of a known kind. */
  function Total(h: History): nat
  {
    h.nbSuccess + h.nbErrors + h.nbUnanswered
  }

  /** The record invariants: every answer was counted under exactly one kind,
      streaks are bounded by successes, and only an unanswered record is New. */
  predicate WellFormed(h: History)
  {
    && h.answerCount == Total(h)
    && h.currentStreak <= h.bestStreak <= h.nbSuccess
    && (h.status == New <==> h.answerCount == 0)
  }

  /** The record a store creates for a pair seen for the first time: column
      defaults are zero counters and status NEW, timestamps are zero. */
  function Fresh(user: UserId, word: WordId): (h: History)
    ensures h.userId == user && h.wordId == word
    ensures WellFormed(h)
    ensures h.status == New && h.answerCount == 0 && Total(h) == 0
    ensures h.currentStreak == 0 && h.bestStreak == 0
  {
    History(user, word, ZeroTime, ZeroTime, 0, 0, 0, 0, 0, 0, New)
  }
}
