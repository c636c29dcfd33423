/**
 * The decision of main.py:48-55: a parsed deadline against the current
 * instant gives the two derived cells, `Tempo restante` and
 * `Tempo excedente`. A deadline strictly after now is within time; a
 * deadline at or before now (a tie included) has expired.
 */
module RowStatus {
  import opened Wrappers
  import opened Numerals
  import opened Duration
  import opened Calendar

  /** The sentinel written to `Tempo restante` once the deadline has passed. */
  const Expirado: string := "Expirado"

  /** The sentinel written to `Tempo excedente` while the deadline lies ahead. */
  const DentroDoTempo: string := "Dentro do tempo"

  /** Spans are in microseconds, the resolution of `datetime`. */
  datatype Status = Pending(remaining: nat) | Expired(exceeded: nat)

  /** A parsed deadline as an instant in microseconds on the civil clock. */
  function DeadlineMicros(t: DateTime): nat
    requires ValidDateTime(t)
  {
    SecondsOf(t) * MicrosPerSecond
  }

  /**
   * Deadlines in microseconds compare as the wall-clock date-times do
   * field by field, and fall on whole seconds.
   */
  lemma DeadlineMicrosOrder(a: DateTime, b: DateTime)
    requires ValidDateTime(a) && ValidDateTime(b)
    ensures DeadlineMicros(a) < DeadlineMicros(b) <==> DateTimeBefore(a, b)
    ensures DeadlineMicros(a) == DeadlineMicros(b) <==> a == b
    ensures DeadlineMicros(a) % MicrosPerSecond == 0
  {
    SecondsOrder(a, b);
    ScaledOrder(SecondsOf(a), SecondsOf(b));
  }

  lemma ScaledOrder(x: nat, y: nat)
    ensures x * MicrosPerSecond < y * MicrosPerSecond <==> x < y
    ensures x * MicrosPerSecond == y * MicrosPerSecond <==> x == y
    ensures x * MicrosPerSecond % MicrosPerSecond == 0
  {
  }

  /**
   * `termino > agora` decides the status; the span handed on is the
   * positive difference in either branch, so it is never negative.
   */
  function Classify(deadline: nat, now: nat): (st: Status)
    ensures st.Pending? <==> deadline > now
    ensures st.Pending? ==> now + st.remaining == deadline && st.remaining > 0
    ensures st.Expired? ==> deadline + st.exceeded == now
  {
    if deadline > now then Pending(deadline - now) else Expired(now - deadline)
  }

  /** The pair (`Tempo restante`, `Tempo excedente`) written for a status (main.py:50-51, 54-55). */
  function DerivedCells(st: Status): (r: (string, string))
    ensures st.Pending? ==> IsClock(r.0) && r.1 == DentroDoTempo
    ensures st.Expired? ==> r.0 == Expirado && IsClock(r.1)
  {
    match st
    case Pending(d) => (FormatSpan(d), DentroDoTempo)
    case Expired(d) => (Expirado, FormatSpan(d))
  }

  predicate WithinTimePattern(restante: string, excedente: string) {
    IsClock(restante) && excedente == DentroDoTempo
  }

  predicate ExpiredPattern(restante: string, excedente: string) {
    restante == Expirado && IsClock(excedente)
  }

  /** Neither sentinel, nor the blank cell, reads as a clock text. */
  lemma SentinelsAreNotClocks()
    ensures !IsClock(Expirado) && !IsClock(DentroDoTempo) && !IsClock("")
  {
    assert !IsDigit(Expirado[|Expirado| - 1]);
    assert !IsDigit(DentroDoTempo[|DentroDoTempo| - 1]);
  }

  /**
   * The cells of a classified row fall in exactly one of the two
   * patterns, and which one tells the status.
   */
  lemma ExactlyOnePattern(st: Status)
    ensures var (r, e) := DerivedCells(st);
      (WithinTimePattern(r, e) <==> st.Pending?) &&
      (ExpiredPattern(r, e) <==> st.Expired?)
  {
    SentinelsAreNotClocks();
  }

  /** A status with its span truncated to whole seconds. */
  function WholeSeconds(st: Status): Status {
    match st
    case Pending(d) => Pending(d / MicrosPerSecond)
    case Expired(d) => Expired(d / MicrosPerSecond)
  }

  /** Reads the two derived cells back, the span in whole seconds; `None` off both patterns. */
  function ReadCells(restante: string, excedente: string): Option<Status> {
    if WithinTimePattern(restante, excedente) then Some(Pending(ParseClock(restante).value))
    else if ExpiredPattern(restante, excedente) then Some(Expired(ParseClock(excedente).value))
    else None
  }

  /** The cells record the status up to the dropped fraction of a second. */
  lemma ReadDerivedCells(st: Status)
    ensures ReadCells(DerivedCells(st).0, DerivedCells(st).1) == Some(WholeSeconds(st))
  {
    ExactlyOnePattern(st);
    match st
    case Pending(d) => ParseFormat(d / MicrosPerSecond);
    case Expired(d) => ParseFormat(d / MicrosPerSecond);
  }

  /** A whole-second status as a span in microseconds. */
  function InMicros(st: Status): Status {
    match st
    case Pending(d) => Pending(d * MicrosPerSecond)
    case Expired(d) => Expired(d * MicrosPerSecond)
  }

  /**
   * Cells that read back as a status are exactly the cells written for
   * that status: nothing else passes for a derived pair.
   */
  lemma ReadCellsSound(restante: string, excedente: string)
    requires ReadCells(restante, excedente).Some?
    ensures DerivedCells(InMicros(ReadCells(restante, excedente).value)) == (restante, excedente)
  {
    var st := ReadCells(restante, excedente).value;
    match st
    case Pending(d) =>
      assert d * MicrosPerSecond / MicrosPerSecond == d;
      FormatParse(restante);
    case Expired(d) =>
      assert d * MicrosPerSecond / MicrosPerSecond == d;
      FormatParse(excedente);
  }

  /** A tie counts as expired, zero seconds over. */
  lemma TieIsExpired(t: nat)
    ensures Classify(t, t) == Expired(0)
    ensures DerivedCells(Classify(t, t)) == (Expirado, "00:00:00")
  {
    assert DigitChar(0) == '0';
    assert Pad2(0) == "00";
    assert FormatSeconds(0) == "00" + ":" + "00" + ":" + "00";
    assert FormatSpan(0) == FormatSeconds(0) == "00:00:00";
    assert DerivedCells(Expired(0)) == (Expirado, FormatSpan(0));
  }
}
