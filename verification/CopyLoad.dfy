/** Loading a file of GeoJSON lines into the staging table: a sink that writes bounded batches
    through COPY, and the one-worker and pipelined loops that feed it. */
module CopyLoad {
  import opened Wrappers
  import opened CopyCodec
  import CopyReader

  /** The eight columns named in the COPY statement. */
  type Record = r: Row | |r| == 8 witness [None, None, None, None, None, None, None, None]

  // ---------- settings ----------

  /** int(getattr(...) or default), then at least `low`. */
  function AtLeast(low: int, configured: int, default: int): (n: int)
    ensures n >= low && (configured != 0 ==> n >= configured)
    ensures n > low ==> n == if configured != 0 then configured else default
  {
    var n := if configured == 0 then default else configured;
    if n > low then n else low
  }

  function MaxInflight(configured: int, workers: int): (n: int)
    ensures n >= 1 && (configured > 0 ==> n == configured)
    ensures configured <= 0 ==> n >= 2 && n >= 2 * workers && (n > 2 ==> n == 2 * workers)
  {
    if configured > 0 then configured else if workers * 2 > 2 then workers * 2 else 2
  }

  function ParserWorkers(configured: int, cpus: int): (n: int)
    ensures n >= 1 && (configured > 0 ==> n == configured)
    ensures configured <= 0 ==> n >= cpus - 1 && (n > 1 ==> n == cpus - 1)
  {
    if configured > 0 then configured else if cpus - 1 > 1 then cpus - 1 else 1
  }

  // ---------- parsing ----------

  datatype Parsed = Parsed(rows: seq<Record>, failed: nat)

  const NOTHING := Parsed([], 0)

  function Plus(a: Parsed, b: Parsed): Parsed
  {
    Parsed(a.rows + b.rows, a.failed + b.failed)
  }

  predicate Blank(line: string)
  {
    forall c | c in line :: c == ' ' || '\t' <= c <= '\r'
  }

  /** `parse` stands for the parsing of a line that is not blank. */
  function ParseLine(line: string, parse: string -> Parsed): Parsed
  {
    if Blank(line) then NOTHING else parse(line)
  }

  function ParseAll(lines: seq<string>, parse: string -> Parsed): Parsed
  {
    if lines == [] then NOTHING else Plus(ParseLine(lines[0], parse), ParseAll(lines[1..], parse))
  }

  function ParseQueue(batches: seq<seq<string>>, parse: string -> Parsed): Parsed
  {
    if batches == [] then NOTHING else Plus(ParseAll(batches[0], parse), ParseQueue(batches[1..], parse))
  }

  lemma PlusLaws(a: Parsed, b: Parsed, c: Parsed)
    ensures Plus(Plus(a, b), c) == Plus(a, Plus(b, c))
    ensures Plus(a, NOTHING) == a == Plus(NOTHING, a)
  {
  }

  lemma {:induction false} ParseAllConcat(a: seq<string>, b: seq<string>, parse: string -> Parsed)
    ensures ParseAll(a + b, parse) == Plus(ParseAll(a, parse), ParseAll(b, parse))
  {
    if a == [] {
      assert a + b == b;
      PlusLaws(ParseAll(b, parse), NOTHING, NOTHING);
    } else {
      assert (a + b)[0] == a[0] && (a + b)[1..] == a[1..] + b;
      ParseAllConcat(a[1..], b, parse);
      PlusLaws(ParseLine(a[0], parse), ParseAll(a[1..], parse), ParseAll(b, parse));
    }
  }

  /** Every line, blank or not, is parsed. */
  function ParseEach(lines: seq<string>, parse: string -> Parsed): Parsed
  {
    if lines == [] then NOTHING else Plus(parse(lines[0]), ParseEach(lines[1..], parse))
  }

  /** The six characters of ASCII whitespace. */
  predicate White(c: char)
  {
    c == ' ' || c == '\t' || c == '\n' || c == '\U{0B}' || c == '\U{0C}' || c == '\r'
  }

  /** `parse` has nothing to say about a line of whitespace only. */
  ghost predicate QuietOnWhite(parse: string -> Parsed)
  {
    forall line: string | (forall c | c in line :: White(c)) :: parse(line) == NOTHING
  }

  /** Skipping blank lines loses nothing. */
  lemma {:induction false} SkippingIsHarmless(lines: seq<string>, parse: string -> Parsed)
    requires QuietOnWhite(parse)
    ensures ParseAll(lines, parse) == ParseEach(lines, parse)
  {
    if lines != [] {
      SkippingIsHarmless(lines[1..], parse);
      if Blank(lines[0]) {
        assert forall c | c in lines[0] :: White(c);
      }
    }
  }

  /** How many lines are handed on for parsing. */
  function Filled(lines: seq<string>): nat
  {
    if lines == [] then 0 else Filled(lines[..|lines| - 1]) + if Blank(lines[|lines| - 1]) then 0 else 1
  }

  /** n lines make so many full batches, with so many lines in the open one. */
  function FullBatches(n: nat, size: nat): nat
    requires size > 0
  {
    n / size
  }

  function OpenLines(n: nat, size: nat): nat
    requires size > 0
  {
    n % size
  }

  /** The number of batches n lines make, the last one perhaps not full. */
  function Batches(n: nat, size: nat): nat
    requires size > 0
  {
    (n + size - 1) / size
  }

  lemma NoLines(size: nat)
    requires size > 0
    ensures FullBatches(0, size) == 0 && OpenLines(0, size) == 0 && Filled([]) == 0
  {
  }

  /** One more line: the open batch grows, or is full and handed over. */
  lemma BatchStep(n: nat, size: nat)
    requires size > 0
    ensures if OpenLines(n, size) + 1 >= size
            then FullBatches(n + 1, size) == FullBatches(n, size) + 1 && OpenLines(n + 1, size) == 0
            else FullBatches(n + 1, size) == FullBatches(n, size) && OpenLines(n + 1, size) == OpenLines(n, size) + 1
  {
    var q, r := n / size, n % size;
    assert n == q * size + r;
    if r + 1 >= size {
      assert n + 1 == (q + 1) * size;
      DivisionIs(n + 1, size, q + 1, 0);
    } else {
      DivisionIs(n + 1, size, q, r + 1);
    }
  }

  lemma DivisionIs(n: int, size: int, q: int, r: int)
    requires size > 0 && n == q * size + r && 0 <= r < size
    ensures n / size == q && n % size == r
  {
    var p := n / size;
    assert n == p * size + n % size;
    if p < q {
      Multiples(p, q, size);
    } else if q < p {
      Multiples(q, p, size);
    }
  }

  lemma Multiples(a: int, b: int, size: int)
    requires a < b && size > 0
    ensures a * size + size <= b * size
  {
    assert (b - a - 1) * size >= 0;
    assert b * size == a * size + size + (b - a - 1) * size;
  }

  /** The job's status is looked at before every 2000th line. */
  lemma PollStep(i: nat)
    ensures Batches(0, 2000) == 0
    ensures Batches(i + 1, 2000) == Batches(i, 2000) + if i % 2000 == 0 then 1 else 0
  {
  }

  lemma FilledNext(lines: seq<string>, i: nat)
    requires i < |lines|
    ensures Filled(lines[..i + 1]) == Filled(lines[..i]) + if Blank(lines[i]) then 0 else 1
  {
    assert lines[..i + 1][..i] == lines[..i];
  }

  lemma RoundedUp(n: nat, size: nat)
    requires size > 0
    ensures Batches(n, size) == FullBatches(n, size) + if OpenLines(n, size) == 0 then 0 else 1
  {
    var q, r := n / size, n % size;
    assert n == q * size + r;
    if r == 0 {
      DivisionIs(n + size - 1, size, q, size - 1);
    } else {
      assert (q + 1) * size == q * size + size;
      DivisionIs(n + size - 1, size, q + 1, r - 1);
    }
  }

  lemma ParseAllPush(lines: seq<string>, line: string, parse: string -> Parsed)
    ensures ParseAll(lines + [line], parse) == Plus(ParseAll(lines, parse), ParseLine(line, parse))
  {
    hide Plus, Blank, ParseLine;
    ParseAllConcat(lines, [line], parse);
    PlusLaws(ParseLine(line, parse), NOTHING, NOTHING);
    assert ParseAll([line], parse) == Plus(ParseLine(line, parse), ParseAll([line][1..], parse));
    assert [line][1..] == [];
  }

  lemma {:induction false} ParseQueuePush(batches: seq<seq<string>>, b: seq<string>, parse: string -> Parsed)
    ensures ParseQueue(batches + [b], parse) == Plus(ParseQueue(batches, parse), ParseAll(b, parse))
  {
    hide ParseAll, Plus;
    if batches == [] {
      assert batches + [b] == [b] && [b][1..] == [];
      PlusLaws(ParseAll(b, parse), NOTHING, NOTHING);
    } else {
      var longer := batches + [b];
      assert longer[0] == batches[0] && longer[1..] == batches[1..] + [b];
      ParseQueuePush(batches[1..], b, parse);
      PlusLaws(ParseAll(batches[0], parse), ParseQueue(batches[1..], parse), ParseAll(b, parse));
    }
  }

  method ParseLinesBatch(lines: seq<string>, parse: string -> Parsed) returns (rows: seq<Record>, failed: nat)
    ensures Parsed(rows, failed) == ParseAll(lines, parse)
  {
    rows, failed := [], 0;
    for i := 0 to |lines|
      invariant Parsed(rows, failed) == ParseAll(lines[..i], parse)
    {
      var part := ParseLine(lines[i], parse);
      rows := rows + part.rows;
      failed := failed + part.failed;
      assert lines[..i + 1] == lines[..i] + [lines[i]];
      ParseAllPush(lines[..i], lines[i], parse);
    }
    assert lines[..|lines|] == lines;
  }

  // ---------- the sink ----------

  /** n rows are a whole number of batches. */
  ghost predicate Whole(n: int, batchSize: int)
  {
    exists k: nat :: n == k * batchSize
  }

  lemma WholeStep(n: int, batchSize: int)
    requires Whole(n, batchSize)
    ensures Whole(n + batchSize, batchSize)
  {
    var k: nat :| n == k * batchSize;
    assert n + batchSize == (k + 1) * batchSize;
  }

  /** The table holds the first `sent` of the rows ever added, after what it held before. */
  ghost predicate Stored(table: seq<Record>, base: seq<Record>, added: seq<Record>, sent: nat)
  {
    sent <= |added| && table == base + added[..sent]
  }

  /** The buffer holds the others. */
  ghost predicate Buffered(buf: seq<Record>, added: seq<Record>, sent: nat)
  {
    sent <= |added| && buf == added[sent..]
  }

  lemma SentGrows(table: seq<Record>, base: seq<Record>, added: seq<Record>, sent: nat, buf: seq<Record>, n: nat)
    requires Stored(table, base, added, sent) && Buffered(buf, added, sent) && n <= |buf|
    ensures Stored(table + buf[..n], base, added, sent + n) && Buffered(buf[n..], added, sent + n)
  {
    assert added[..sent] + added[sent..][..n] == added[..sent + n];
  }

  class StagingCopier {
    const batchSize: int
    const accepts: nat -> bool  // does the database take the n-th COPY
    var buf: seq<Record>
    var table: seq<Record>
    var flushes: nat
    ghost const base: seq<Record>  // the table at the start
    ghost var added: seq<Record>   // every row ever added
    ghost var sent: nat            // how many of them are in the table
    ghost var lost: bool           // a COPY was refused and its batch dropped

    ghost predicate Valid()
      reads this
    {
      && batchSize >= 1000
      && Stored(table, base, added, sent)
      && (!lost ==> Buffered(buf, added, sent))
    }

    /** The table grew by whole batches only. */
    ghost predicate Aligned()
      reads this
    {
      Valid() && Whole(sent, batchSize)
    }

    constructor (table: seq<Record>, batchSize: int, accepts: nat -> bool)
      ensures Aligned() && !lost && buf == [] && this.table == base == table && added == [] && sent == 0
      ensures this.accepts == accepts && this.batchSize == if batchSize > 1000 then batchSize else 1000
    {
      this.batchSize := if batchSize > 1000 then batchSize else 1000;
      this.accepts := accepts;
      this.table, base := table, table;
      buf, added, sent, lost, flushes := [], [], 0, false, 0;
      new;
      assert sent == 0 * this.batchSize;
    }

    /** One COPY: the driver pulls the encoded rows in chunks, the server decodes them, and the batch
        is committed or rolled back whole. */
    method FlushBatch(batch: seq<Record>) returns (ok: bool, written: nat)
      modifies this`table, this`flushes
      ensures ok == accepts(old(flushes)) && flushes == old(flushes) + 1
      ensures table == if ok then old(table) + batch else old(table)
      ensures written == if ok then |batch| else 0
    {
      hide EncodeFile, DecodeFile;
      var reader := new CopyReader.RowCopyReader(batch);
      var wire := "";
      var chunk := reader.Read(8192);
      while chunk != ""
        invariant reader.Valid() && wire + (chunk + reader.Left()) == EncodeFile(batch)
        invariant chunk == "" ==> reader.Left() == ""
        invariant fresh(reader) && table == old(table) && flushes == old(flushes)
        decreases |chunk| + |reader.Left()|
      {
        ghost var left := reader.Left();
        assert wire + (chunk + left) == (wire + chunk) + left;
        wire := wire + chunk;
        chunk := reader.Read(8192);
        CopyReader.EmptyMeansEnd(left, CopyReader.Call.Read(8192));
      }
      assert wire == EncodeFile(batch);
      RoundTrip(batch);
      var decoded := DecodeFile(wire);
      ok := accepts(flushes);
      flushes := flushes + 1;
      written := 0;
      if ok {
        table := table + decoded.value;
        written := |batch|;
      }
    }

    method FlushFull() returns (ok: bool, n: nat)
      requires Aligned() && !lost && |buf| >= batchSize
      modifies this
      ensures Aligned() && ok == !lost && added == old(added) && sent == old(sent) + n
      ensures if ok then |buf| == old(|buf|) - batchSize else n == 0
      ensures ok == accepts(old(flushes))
    {
      hide Whole, Stored, Buffered;
      SentGrows(table, base, added, sent, buf, batchSize);
      var batch := buf[..batchSize];
      buf := buf[batchSize..];
      ok, n := FlushBatch(batch);
      if ok {
        WholeStep(sent, batchSize);
        sent := sent + n;
      } else {
        lost := true;
      }
    }

    method Add(rows: seq<Record>) returns (ok: bool, written: nat)
      requires Aligned() && !lost
      modifies this
      ensures Aligned() && ok == !lost && added == old(added) + rows && written == sent - old(sent)
      ensures ok ==> |buf| < batchSize
      ensures (forall n :: accepts(n)) ==> ok
    {
      buf := buf + rows;
      added := added + rows;
      written, ok := 0, true;
      assert added[..sent] == old(added)[..sent] && buf == added[sent..];
      while |buf| >= batchSize
        invariant Aligned() && !lost && ok && added == old(added) + rows && sent == old(sent) + written
        decreases |buf|
      {
        var n;
        ok, n := FlushFull();
        if !ok {
          return;
        }
        written := written + n;
      }
    }

    method FlushFinal() returns (ok: bool, written: nat)
      requires Aligned() && !lost
      modifies this
      ensures Valid() && ok == !lost && added == old(added)
      ensures ok ==> buf == [] && table == base + added && written == |added| - old(sent)
      ensures !ok ==> Aligned()
      ensures (forall n :: accepts(n)) ==> ok
    {
      if buf == [] {
        assert added[..sent] == added;
        return true, 0;
      }
      var batch := buf;
      buf := [];
      ok, written := FlushBatch(batch);
      if ok {
        assert base + added[..sent] + batch == base + added;
        sent := |added|;
        assert added[..sent] == added;
      } else {
        lost := true;
      }
    }
  }

  // ---------- the loops ----------

  lemma ParsedPrefix(lines: seq<string>, i: nat, parse: string -> Parsed)
    requires i <= |lines|
    ensures ParseAll(lines[..i], parse).rows <= ParseAll(lines, parse).rows
  {
    assert lines == lines[..i] + lines[i..];
    ParseAllConcat(lines[..i], lines[i..], parse);
  }

  lemma ParsedNext(lines: seq<string>, i: nat, parse: string -> Parsed)
    requires i < |lines|
    ensures ParseAll(lines[..i + 1], parse) == Plus(ParseAll(lines[..i], parse), ParseLine(lines[i], parse))
  {
    assert lines[..i + 1] == lines[..i] + [lines[i]];
    ParseAllPush(lines[..i], lines[i], parse);
  }

  class Loader {
    const copier: StagingCopier
    const parse: string -> Parsed
    const cancelled: nat -> bool  // what the n-th look at the job's status finds
    const workers: int
    const parseLines: int
    const maxInflight: int
    var created: nat
    var failed: nat
    var polls: nat
    var futures: seq<seq<string>>  // batches handed to the pool, oldest first
    ghost var held: nat            // the most batches ever held at once

    ghost predicate Valid()
      reads this, copier
    {
      && copier.Aligned() && !copier.lost && created == |copier.added|
      && parseLines >= 500 && maxInflight >= 1
      && |futures| <= maxInflight && held <= maxInflight
    }

    /** Nothing has been read yet. */
    ghost predicate Ready()
      reads this, copier
    {
      Valid() && copier.added == [] && failed == 0 && futures == []
    }

    ghost function Taken(): Parsed
      reads this, copier
    {
      Parsed(copier.added, failed)
    }

    /** What is written or buffered, then what the pool still holds. */
    ghost function Submitted(): Parsed
      reads this, copier
    {
      Plus(Taken(), ParseQueue(futures, parse))
    }

    /** The load ended and the table holds every row of the file, in order. */
    ghost predicate Loaded(lines: seq<string>)
      reads this, copier
    {
      var all := ParseAll(lines, parse);
      && copier.table == copier.base + all.rows && copier.buf == []
      && created == |all.rows| && failed == all.failed
    }

    /** The load was abandoned: the table holds whole batches of the file's first rows. */
    ghost predicate Abandoned(rows: seq<Record>)
      reads this, copier
    {
      exists n: nat ::
        n <= |rows| && Whole(n, copier.batchSize) && copier.table == copier.base + rows[..n]
    }

    ghost predicate Undisturbed()
    {
      Reliable() && (forall n :: !cancelled(n))
    }

    /** No COPY is refused. */
    ghost predicate Reliable()
    {
      forall n :: copier.accepts(n)
    }

    /** Every look at the job's status since the one numbered `from` found it not cancelled. */
    ghost predicate Unstopped(from: nat)
      reads this
    {
      from <= polls && forall n | from <= n < polls :: !cancelled(n)
    }

    /** The last look found it cancelled. */
    ghost predicate JustStopped(from: nat)
      reads this
    {
      from < polls && cancelled(polls - 1)
    }

    lemma PrefixIsAbandoned(rows: seq<Record>)
      requires copier.Aligned() && copier.added <= rows
      ensures Abandoned(rows)
    {
      assert copier.added[..copier.sent] == rows[..copier.sent];
    }

    constructor (table: seq<Record>, parse: string -> Parsed, batchRows: int, linesPerTask: int, inflight: int,
                 parserWorkers: int, cpus: int, accepts: nat -> bool, cancelled: nat -> bool)
      ensures Ready() && fresh(copier) && copier.base == copier.table == table
      ensures this.parse == parse && this.cancelled == cancelled && copier.accepts == accepts
      ensures maxInflight == MaxInflight(inflight, workers) && workers == ParserWorkers(parserWorkers, cpus)
    {
      copier := new StagingCopier(table, AtLeast(1000, batchRows, 20000), accepts);
      this.parse := parse;
      this.cancelled := cancelled;
      workers := ParserWorkers(parserWorkers, cpus);
      parseLines := AtLeast(500, linesPerTask, 8000);
      maxInflight := MaxInflight(inflight, ParserWorkers(parserWorkers, cpus));
      created, failed, polls, futures, held := 0, 0, 0, [], 0;
    }

    method Poll() returns (stop: bool)
      modifies this`polls
      ensures stop == cancelled(old(polls)) && polls == old(polls) + 1
    {
      stop := cancelled(polls);
      polls := polls + 1;
    }

    method Account(part: Parsed) returns (ok: bool)
      requires Valid()
      modifies this`created, this`failed, copier
      ensures copier.Aligned() && ok == !copier.lost && copier.added == old(copier.added) + part.rows
      ensures created == |copier.added| && failed == old(failed) + part.failed
      ensures (forall n :: copier.accepts(n)) ==> ok
    {
      failed := failed + part.failed;
      ok := true;
      if part.rows != [] {
        created := created + |part.rows|;
        var written;
        ok, written := copier.Add(part.rows);
      }
    }

    /** One line of the one-worker loop: look at the job's status now and then, parse, add. */
    method TakeLine(line: string, i: nat) returns (ok: bool)
      requires Valid()
      modifies this, copier
      ensures ok ==> Valid() && Taken() == Plus(old(Taken()), ParseLine(line, parse))
      ensures !ok ==> Abandoned(Plus(old(Taken()), ParseLine(line, parse)).rows)
      ensures held <= maxInflight
      ensures Undisturbed() ==> ok
      ensures ok ==> Unstopped(old(polls)) && polls == old(polls) + if i % 2000 == 0 then 1 else 0
      ensures !ok && Reliable() ==> JustStopped(old(polls))
    {
      hide ParseLine, Whole;
      ghost var rows := Plus(Taken(), ParseLine(line, parse)).rows;
      if i % 2000 == 0 {
        var stop := Poll();
        if stop {
          PrefixIsAbandoned(rows);
          return false;
        }
      }
      ok := Account(ParseLine(line, parse));
      if !ok {
        PrefixIsAbandoned(rows);
      }
    }

    method LoadOneWorker(lines: seq<string>) returns (done: bool)
      requires Ready()
      modifies this, copier
      ensures done ==> Loaded(lines)
      ensures !done ==> Abandoned(ParseAll(lines, parse).rows)
      ensures held <= maxInflight
      ensures Undisturbed() ==> done
      ensures done ==> forall n | old(polls) <= n < polls :: !cancelled(n)
      ensures !done && Reliable() ==> old(polls) < polls && cancelled(polls - 1)
      ensures done ==> polls == old(polls) + Batches(|lines|, 2000)
    {
      assert Taken() == ParseAll(lines[..0], parse);
      PollStep(0);
      hide Batches, ParseAll, ParseLine, Plus, Whole;
      ghost var all := ParseAll(lines, parse);
      for i := 0 to |lines|
        invariant Valid() && Taken() == ParseAll(lines[..i], parse)
        invariant Unstopped(old(polls)) && polls == old(polls) + Batches(i, 2000)
      {
        ParsedNext(lines, i, parse);
        PollStep(i);
        var ok := TakeLine(lines[i], i);
        if !ok {
          ParsedPrefix(lines, i + 1, parse);
          AbandonedWithin(ParseAll(lines[..i + 1], parse).rows, all.rows);
          return false;
        }
      }
      assert lines[..|lines|] == lines;
      var written;
      done, written := copier.FlushFinal();
      if !done {
        PrefixIsAbandoned(all.rows);
      }
    }

    method Submit(batch: seq<string>)
      requires Valid() && |futures| < maxInflight
      modifies this`futures, this`held
      ensures Valid() && Submitted() == Plus(old(Submitted()), ParseAll(batch, parse))
      ensures futures == old(futures) + [batch]
    {
      ParseQueuePush(futures, batch, parse);
      PlusLaws(Taken(), ParseQueue(futures, parse), ParseAll(batch, parse));
      futures := futures + [batch];
      held := if |futures| > held then |futures| else held;
    }

    method DrainOne() returns (ok: bool)
      requires Valid() && futures != []
      modifies this, copier
      ensures ok ==> Valid() && Submitted() == old(Submitted()) && |futures| == old(|futures|) - 1
      ensures !ok ==> Abandoned(old(Submitted()).rows)
      ensures held <= maxInflight
      ensures Undisturbed() ==> ok
      ensures polls == old(polls) + 1
      ensures (ok ==> Unstopped(old(polls))) && (!ok && Reliable() ==> JustStopped(old(polls)))
    {
      hide ParseAll, Whole;
      ghost var before := Taken();
      ghost var rest := ParseQueue(futures[1..], parse);
      assert ParseQueue(futures, parse) == Plus(ParseAll(futures[0], parse), rest);
      hide ParseQueue, Undisturbed, Abandoned;
      var batch := futures[0];
      futures := futures[1..];
      var rows, fail := ParseLinesBatch(batch, parse);
      PlusLaws(before, Parsed(rows, fail), rest);
      var stop := Poll();
      if stop {
        PrefixIsAbandoned(old(Submitted()).rows);
        return false;
      }
      ok := Account(Parsed(rows, fail));
      if !ok {
        PrefixIsAbandoned(old(Submitted()).rows);
      }
    }

    /** Drain while at least `limit` batches are held. */
    method Drain(limit: int) returns (ok: bool)
      requires Valid() && limit >= 1
      modifies this, copier
      ensures ok ==> Valid() && Submitted() == old(Submitted()) && |futures| < limit
      ensures !ok ==> Abandoned(old(Submitted()).rows)
      ensures held <= maxInflight
      ensures Undisturbed() ==> ok
      ensures ok ==> Unstopped(old(polls)) && polls + |futures| == old(polls + |futures|)
      ensures !ok && Reliable() ==> JustStopped(old(polls))
    {
      ok := true;
      while |futures| >= limit
        invariant Valid() && Submitted() == old(Submitted()) && ok
        invariant Unstopped(old(polls)) && polls + |futures| == old(polls + |futures|)
        decreases |futures|
      {
        ok := DrainOne();
        if !ok {
          return;
        }
      }
    }

    lemma AbandonedWithin(rows: seq<Record>, all: seq<Record>)
      requires Abandoned(rows) && rows <= all
      ensures Abandoned(all)
    {
      var n: nat :| n <= |rows| && Whole(n, copier.batchSize) && copier.table == copier.base + rows[..n];
      assert rows[..n] == all[..n];
    }

    /** One line of the pipelined loop: gather it, hand over a full batch, make room in the pool. */
    method Feed(line: string, batch: seq<string>) returns (ok: bool, more: seq<string>)
      requires Valid() && |futures| < maxInflight && |batch| < parseLines
      modifies this, copier
      ensures ok ==> Valid() && |futures| < maxInflight && |more| < parseLines
      ensures ok ==> Plus(Submitted(), ParseAll(more, parse)) ==
                     Plus(old(Plus(Submitted(), ParseAll(batch, parse))), ParseLine(line, parse))
      ensures !ok ==> Abandoned(Plus(old(Plus(Submitted(), ParseAll(batch, parse))), ParseLine(line, parse)).rows)
      ensures held <= maxInflight
      ensures Undisturbed() ==> ok
      ensures ok ==> Unstopped(old(polls))
      ensures !ok && Reliable() ==> JustStopped(old(polls))
      ensures ok ==> |more| == (if Blank(line) then |batch| else if |batch| + 1 >= parseLines then 0 else |batch| + 1)
      ensures ok ==> polls + |futures| == old(polls + |futures|)
                     + (if !Blank(line) && |batch| + 1 >= parseLines then 1 else 0)
    {
      hide ParseAll, ParseQueue, Blank;
      ghost var before := Plus(Submitted(), ParseAll(batch, parse));
      if Blank(line) {
        PlusLaws(before, NOTHING, NOTHING);
        return true, batch;
      }
      ParseAllPush(batch, line, parse);
      PlusLaws(Submitted(), ParseAll(batch, parse), ParseLine(line, parse));
      more := batch + [line];
      ok := true;
      if |more| >= parseLines {
        Submit(more);
        ghost var submitted := Submitted();
        more := [];
        ParseNothing();
        PlusLaws(submitted, NOTHING, NOTHING);
        ok := Drain(maxInflight);
      }
    }

    lemma ParseNothing()
      ensures ParseAll([], parse) == NOTHING && ParseQueue([], parse) == NOTHING
    {
    }

    method LoadPipelined(lines: seq<string>) returns (done: bool)
      requires Ready()
      modifies this, copier
      ensures done ==> Loaded(lines)
      ensures !done ==> Abandoned(ParseAll(lines, parse).rows)
      ensures held <= maxInflight
      ensures Undisturbed() ==> done
      ensures done ==> forall n | old(polls) <= n < polls :: !cancelled(n)
      ensures !done && Reliable() ==> old(polls) < polls && cancelled(polls - 1)
      ensures done ==> polls == old(polls) + Batches(Filled(lines), parseLines)
    {
      hide ParseAll, ParseQueue, Plus, Whole, ParseLine, FullBatches, OpenLines, Batches, Filled, Blank;
      ghost var all := ParseAll(lines, parse);
      var batch: seq<string> := [];
      NoLines(parseLines);
      ParseNothing();
      PlusLaws(NOTHING, NOTHING, NOTHING);
      for i := 0 to |lines|
        invariant Valid() && |futures| < maxInflight && |batch| < parseLines
        invariant Plus(Submitted(), ParseAll(batch, parse)) == ParseAll(lines[..i], parse)
        invariant Unstopped(old(polls)) && |batch| == OpenLines(Filled(lines[..i]), parseLines)
        invariant polls + |futures| == old(polls) + FullBatches(Filled(lines[..i]), parseLines)
      {
        ParsedNext(lines, i, parse);
        FilledNext(lines, i);
        BatchStep(Filled(lines[..i]), parseLines);
        var ok;
        ok, batch := Feed(lines[i], batch);
        if !ok {
          ParsedPrefix(lines, i + 1, parse);
          AbandonedWithin(ParseAll(lines[..i + 1], parse).rows, all.rows);
          return false;
        }
      }
      assert lines[..|lines|] == lines;
      PlusLaws(Submitted(), NOTHING, NOTHING);
      RoundedUp(Filled(lines), parseLines);
      if batch != [] {
        Submit(batch);
      }
      done := Drain(1);
      if !done {
        return;
      }
      PlusLaws(Taken(), NOTHING, NOTHING);
      var written;
      done, written := copier.FlushFinal();
      if !done {
        PrefixIsAbandoned(all.rows);
      }
    }

    /** The number of workers does not matter for what is loaded. */
    method Load(lines: seq<string>) returns (done: bool)
      requires Ready()
      modifies this, copier
      ensures done ==> Loaded(lines)
      ensures !done ==> Abandoned(ParseAll(lines, parse).rows)
      ensures held <= maxInflight
      ensures Undisturbed() ==> done
      ensures done ==> forall n | old(polls) <= n < polls :: !cancelled(n)
      ensures !done && Reliable() ==> old(polls) < polls && cancelled(polls - 1)
      ensures done ==> polls == old(polls) + (if workers <= 1 then Batches(|lines|, 2000)
                                              else Batches(Filled(lines), parseLines))
      ensures done && QuietOnWhite(parse) ==>
                var all := ParseEach(lines, parse);
                copier.table == copier.base + all.rows && created == |all.rows| && failed == all.failed
    {
      if workers <= 1 {
        done := LoadOneWorker(lines);
      } else {
        done := LoadPipelined(lines);
      }
      if done && QuietOnWhite(parse) {
        SkippingIsHarmless(lines, parse);
      }
    }
  }
}
