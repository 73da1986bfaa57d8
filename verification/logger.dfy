/**
 * The scraper's event log: an append-only sequence of (level, message)
 * pairs. The console echo and the single-slot listener that is called after
 * every append are side effects outside this model; what remains is the
 * sequence itself.
 */
module Logger {

  datatype Level = InfoLevel | ErrorLevel

  datatype Entry = Entry(level: Level, message: string)

  type Log = seq<Entry>

  /** `logger.info(msg)`: exactly one info entry at the end, earlier entries untouched. */
  function Info(log: Log, msg: string): (r: Log)
    ensures |r| == |log| + 1
    ensures r[..|log|] == log
    ensures r[|log|].level == InfoLevel && r[|log|].message == msg
  {
    log + [Entry(InfoLevel, msg)]
  }

  /** `logger.error(msg)`: exactly one error entry at the end, earlier entries untouched. */
  function Error(log: Log, msg: string): (r: Log)
    ensures |r| == |log| + 1
    ensures r[..|log|] == log
    ensures r[|log|].level == ErrorLevel && r[|log|].message == msg
  {
    log + [Entry(ErrorLevel, msg)]
  }

  /** How many entries of `log` carry `level`. */
  function Count(log: Log, level: Level): (n: nat)
    ensures n <= |log|
  {
    if |log| == 0 then 0
    else Count(log[..|log| - 1], level) + (if log[|log| - 1].level == level then 1 else 0)
  }

  /** A single entry counts once for its own level and not at all for the other. */
  lemma CountSingle(e: Entry, level: Level)
    ensures Count([e], level) == if e.level == level then 1 else 0
  {
    assert [e][..0] == [];
  }

  /** Counting distributes over appending one log to another. */
  lemma {:induction false} CountAppend(a: Log, b: Log, level: Level)
    ensures Count(a + b, level) == Count(a, level) + Count(b, level)
    decreases |b|
  {
    if |b| > 0 {
      assert (a + b)[..|a + b| - 1] == a + b[..|b| - 1];
      CountAppend(a, b[..|b| - 1], level);
    } else {
      assert a + b == a;
    }
  }

  /** Every entry is either info or error, so the two counts add up to the length. */
  lemma {:induction false} CountLevelsPartition(log: Log)
    ensures Count(log, InfoLevel) + Count(log, ErrorLevel) == |log|
    decreases |log|
  {
    if |log| > 0 {
      CountLevelsPartition(log[..|log| - 1]);
    }
  }
}
