/**
 The loader: reads whitespace tokens into the parallel `names` and `scores`
 arrays. A record is a name token followed by NUM_TESTS integer tokens;
 loading stops at capacity, at the end of the input, or at the first record
 that is not complete, which is dropped.
 */
module Loader {
  import opened GradeBook

  /** Tokens one complete record occupies: its name and its NUM_TESTS scores, NUM_TESTS + 1 in all. */
  const RECORD_WIDTH: nat := 6

  /** The number of integer tokens at the front of `ts`. */
  function IntRun(ts: seq<Token>): (n: nat)
    ensures n <= |ts|
    ensures forall k :: 0 <= k < n ==> ts[k].Num?
    ensures n < |ts| ==> !ts[n].Num?
  {
    if ts == [] || !ts[0].Num? then 0 else 1 + IntRun(ts[1..])
  }

  /** `ts` begins with a complete record: a name and NUM_TESTS integer tokens. */
  predicate Complete(ts: seq<Token>)
  {
    |ts| >= RECORD_WIDTH && forall k :: 1 <= k < RECORD_WIDTH ==> ts[k].Num?
  }

  /** A record is complete exactly when the integer run after its name reaches NUM_TESTS. */
  lemma CompleteRun(ts: seq<Token>)
    requires |ts| > 0
    ensures Complete(ts) <==> IntRun(ts[1..]) >= NUM_TESTS
  {
    var rest := ts[1..];
    if IntRun(rest) >= NUM_TESTS {
      forall k | 1 <= k < RECORD_WIDTH
        ensures ts[k].Num?
      {
        assert ts[k] == rest[k - 1];
      }
    } else if |ts| >= RECORD_WIDTH {
      assert ts[IntRun(rest) + 1] == rest[IntRun(rest)];
    }
  }

  /** The values of a run of integer tokens, in order. */
  function Values(ts: seq<Token>): (vs: seq<int>)
    requires forall k :: 0 <= k < |ts| ==> ts[k].Num?
    ensures |vs| == |ts|
    ensures forall k :: 0 <= k < |ts| ==> vs[k] == ts[k].value
  {
    seq(|ts|, k requires 0 <= k < |ts| && ts[k].Num? => ts[k].value)
  }

  /** The record at the front of `ts`: its name token and the values of the NUM_TESTS integer tokens after it. */
  function FirstRecord(ts: seq<Token>): (r: StudentRecord)
    requires Complete(ts)
    ensures r.name == ts[0].text
    ensures |r.scores| == NUM_TESTS
    ensures forall t :: 0 <= t < NUM_TESTS ==> ts[1 + t].Num? && r.scores[t] == ts[1 + t].value
  {
    StudentRecord(ts[0].text, Values(ts[1..RECORD_WIDTH]))
  }

  /** The records loaded from `ts` with room for `room` more of them. */
  function LoadFrom(ts: seq<Token>, room: nat): (rs: seq<StudentRecord>)
    decreases room
    ensures |rs| <= room
    ensures RECORD_WIDTH * |rs| <= |ts|
    ensures forall i :: 0 <= i < |rs| ==> |rs[i].scores| == NUM_TESTS
  {
    if room == 0 || !Complete(ts) then []
    else [FirstRecord(ts)] + LoadFrom(ts[RECORD_WIDTH..], room - 1)
  }

  /** The records loaded from a whole input file. */
  function Load(tokens: seq<Token>): (rs: seq<StudentRecord>)
    ensures |rs| <= MAX_STUDENTS
    ensures RECORD_WIDTH * |rs| <= |tokens|
    ensures forall i :: 0 <= i < |rs| ==> |rs[i].scores| == NUM_TESTS
  {
    LoadFrom(tokens, MAX_STUDENTS)
  }

  /**
   Record i of the result is the complete record at token RECORD_WIDTH * i,
   and loading stopped either for lack of room or because the record after the
   last one loaded is not complete.
   */
  lemma LoadFromShape(ts: seq<Token>, room: nat)
    ensures forall i :: 0 <= i < |LoadFrom(ts, room)| ==>
              Complete(ts[RECORD_WIDTH * i..]) && LoadFrom(ts, room)[i] == FirstRecord(ts[RECORD_WIDTH * i..])
    ensures |LoadFrom(ts, room)| < room ==> !Complete(ts[RECORD_WIDTH * |LoadFrom(ts, room)|..])
  {
    forall i | 0 <= i < |LoadFrom(ts, room)|
      ensures Complete(ts[RECORD_WIDTH * i..]) && LoadFrom(ts, room)[i] == FirstRecord(ts[RECORD_WIDTH * i..])
    {
      LoadFromAt(ts, room, i);
    }
    LoadFromStops(ts, room);
  }

  /** Record i of the result is the complete record at token RECORD_WIDTH * i. */
  lemma {:induction false} LoadFromAt(ts: seq<Token>, room: nat, i: nat)
    requires i < |LoadFrom(ts, room)|
    ensures Complete(ts[RECORD_WIDTH * i..]) && LoadFrom(ts, room)[i] == FirstRecord(ts[RECORD_WIDTH * i..])
    decreases i
  {
    if i == 0 {
      assert ts[RECORD_WIDTH * i..] == ts;
    } else {
      LoadFromAt(ts[RECORD_WIDTH..], room - 1, i - 1);
      SuffixShift(ts, i);
    }
  }

  /** Below capacity, loading stopped because the tokens after the last record loaded are not a complete record. */
  lemma {:induction false} LoadFromStops(ts: seq<Token>, room: nat)
    ensures |LoadFrom(ts, room)| < room ==> !Complete(ts[RECORD_WIDTH * |LoadFrom(ts, room)|..])
    decreases room
  {
    if room != 0 && Complete(ts) {
      var rest := ts[RECORD_WIDTH..];
      LoadFromStops(rest, room - 1);
      SuffixShift(ts, |LoadFrom(ts, room)|);
    } else {
      assert ts == ts[RECORD_WIDTH * 0..];
    }
  }

  /** The suffix at record i is the suffix at record i - 1 of the tokens after the first record. */
  lemma SuffixShift(ts: seq<Token>, i: nat)
    requires 0 < i && RECORD_WIDTH * i <= |ts|
    ensures ts[RECORD_WIDTH * i..] == ts[RECORD_WIDTH..][RECORD_WIDTH * (i - 1)..]
  {
  }

  /**
   What loading a file yields: at most MAX_STUDENTS records, each with
   NUM_TESTS scores, record i being the name token at RECORD_WIDTH * i and the
   integer tokens after it, in file order; and below capacity, the tokens after
   the last record do not form a complete record.
   */
  lemma LoadSpec(tokens: seq<Token>)
    ensures |Load(tokens)| <= MAX_STUDENTS
    ensures RECORD_WIDTH * |Load(tokens)| <= |tokens|
    ensures forall i :: 0 <= i < |Load(tokens)| ==> RecordAt(tokens, RECORD_WIDTH * i, Load(tokens)[i])
    ensures |Load(tokens)| < MAX_STUDENTS ==> !Complete(tokens[RECORD_WIDTH * |Load(tokens)|..])
  {
    LoadFromStops(tokens, MAX_STUDENTS);
    forall i | 0 <= i < |Load(tokens)|
      ensures RecordAt(tokens, RECORD_WIDTH * i, Load(tokens)[i])
    {
      LoadFromAt(tokens, MAX_STUDENTS, i);
      FirstRecordAt(tokens, RECORD_WIDTH * i, Load(tokens)[i]);
    }
  }

  /** Record `r` is spelled by the tokens at `start`: its name token, then its NUM_TESTS scores as integer tokens. */
  predicate RecordAt(tokens: seq<Token>, start: nat, r: StudentRecord)
  {
    start + NUM_TESTS < |tokens| && |r.scores| == NUM_TESTS && r.name == tokens[start].text &&
    forall t :: 0 <= t < NUM_TESTS ==> tokens[start + 1 + t].Num? && r.scores[t] == tokens[start + 1 + t].value
  }

  /** The first record of the suffix at `start`, read off the whole token sequence. */
  lemma FirstRecordAt(tokens: seq<Token>, start: nat, r: StudentRecord)
    requires start <= |tokens| && Complete(tokens[start..]) && r == FirstRecord(tokens[start..])
    ensures RecordAt(tokens, start, r)
  {
    var rest := tokens[start..];
    forall k | 1 <= k <= NUM_TESTS
      ensures rest[k] == tokens[start + k]
    {
    }
  }

  /**
   The loaded records are the only sequence that is a run of complete records
   from the start of the file and stops as the loader does.
   */
  lemma {:induction false} LoadFromUnique(ts: seq<Token>, room: nat, rs: seq<StudentRecord>)
    requires |rs| <= room
    requires RECORD_WIDTH * |rs| <= |ts|
    requires forall i :: 0 <= i < |rs| ==>
               Complete(ts[RECORD_WIDTH * i..]) && rs[i] == FirstRecord(ts[RECORD_WIDTH * i..])
    requires |rs| < room ==> !Complete(ts[RECORD_WIDTH * |rs|..])
    ensures LoadFrom(ts, room) == rs
    decreases room
  {
    assert ts[RECORD_WIDTH * 0..] == ts;
    if rs != [] {
      var rest := ts[RECORD_WIDTH..];
      forall i | 0 <= i < |rs| - 1
        ensures Complete(rest[RECORD_WIDTH * i..]) && rs[1..][i] == FirstRecord(rest[RECORD_WIDTH * i..])
      {
        assert rest[RECORD_WIDTH * i..] == ts[RECORD_WIDTH * (i + 1)..];
      }
      assert rest[RECORD_WIDTH * |rs[1..]|..] == ts[RECORD_WIDTH * |rs|..];
      LoadFromUnique(rest, room - 1, rs[1..]);
    }
  }

  /** `ts` is exactly the tokens of one record. */
  predicate SpellsRecord(ts: seq<Token>, r: StudentRecord)
  {
    |ts| == RECORD_WIDTH && |r.scores| == NUM_TESTS && ts[0].text == r.name &&
    forall k :: 1 <= k < RECORD_WIDTH ==> ts[k].Num? && ts[k].value == r.scores[k - 1]
  }

  /** `ts` is exactly the tokens of the records `rs`, one after another. */
  predicate Spells(ts: seq<Token>, rs: seq<StudentRecord>)
    decreases rs
  {
    if rs == [] then ts == []
    else |ts| >= RECORD_WIDTH && SpellsRecord(ts[..RECORD_WIDTH], rs[0]) && Spells(ts[RECORD_WIDTH..], rs[1..])
  }

  /** The tokens of one record read back as that record. */
  lemma ReadBackRecord(ts: seq<Token>, r: StudentRecord, tail: seq<Token>)
    requires SpellsRecord(ts, r)
    ensures Complete(ts + tail) && FirstRecord(ts + tail) == r
    ensures (ts + tail)[RECORD_WIDTH..] == tail
  {
    var all := ts + tail;
    forall k | 1 <= k < RECORD_WIDTH
      ensures all[k] == ts[k]
    {
    }
    assert FirstRecord(all).scores == r.scores;
  }

  /** Loading the tokens of one record followed by more tokens yields that record, then what the rest loads as. */
  lemma LoadFromCons(ts: seq<Token>, r: StudentRecord, more: seq<Token>, room: nat)
    requires SpellsRecord(ts, r)
    ensures LoadFrom(ts + more, room + 1) == [r] + LoadFrom(more, room)
  {
    ReadBackRecord(ts, r, more);
  }

  /** Tokens followed by a tail are their first record's tokens followed by the rest and the tail. */
  lemma SplitFirst(ts: seq<Token>, tail: seq<Token>)
    requires |ts| >= RECORD_WIDTH
    ensures ts + tail == ts[..RECORD_WIDTH] + (ts[RECORD_WIDTH..] + tail)
  {
    assert ts == ts[..RECORD_WIDTH] + ts[RECORD_WIDTH..];
  }

  /**
   Round trip: the tokens of records `rs`, with room for them, followed by
   nothing or by an incomplete record (a name and fewer than NUM_TESTS integer
   tokens, then anything), load as exactly `rs`, in order.
   */
  lemma {:induction false} LoadFromSpelled(ts: seq<Token>, rs: seq<StudentRecord>, tail: seq<Token>, room: nat)
    requires Spells(ts, rs) && |rs| <= room
    requires !Complete(tail)
    ensures LoadFrom(ts + tail, room) == rs
    decreases rs
  {
    if rs == [] {
      assert ts + tail == tail;
    } else {
      SplitFirst(ts, tail);
      LoadFromCons(ts[..RECORD_WIDTH], rs[0], ts[RECORD_WIDTH..] + tail, room - 1);
      LoadFromSpelled(ts[RECORD_WIDTH..], rs[1..], tail, room - 1);
    }
  }

  /** A well-formed file of at most MAX_STUDENTS records, possibly ending in an incomplete one, loads as its complete records. */
  lemma LoadSpelled(ts: seq<Token>, rs: seq<StudentRecord>, tail: seq<Token>)
    requires Spells(ts, rs) && |rs| <= MAX_STUDENTS
    requires !Complete(tail)
    ensures Load(ts + tail) == rs
  {
    LoadFromSpelled(ts, rs, tail, MAX_STUDENTS);
  }

  /** With more records than room, loading keeps the first `room` of them and ignores everything after. */
  lemma {:induction false} LoadFromOverCapacity(ts: seq<Token>, rs: seq<StudentRecord>, tail: seq<Token>, room: nat)
    requires Spells(ts, rs) && |rs| >= room
    ensures LoadFrom(ts + tail, room) == rs[..room]
    decreases room
  {
    if room > 0 {
      SplitFirst(ts, tail);
      LoadFromCons(ts[..RECORD_WIDTH], rs[0], ts[RECORD_WIDTH..] + tail, room - 1);
      LoadFromOverCapacity(ts[RECORD_WIDTH..], rs[1..], tail, room - 1);
      assert rs[..room] == [rs[0]] + rs[1..][..room - 1];
    }
  }

  /** A file holding more than MAX_STUDENTS records loads as its first MAX_STUDENTS. */
  lemma LoadOverCapacity(ts: seq<Token>, rs: seq<StudentRecord>, tail: seq<Token>)
    requires Spells(ts, rs) && |rs| >= MAX_STUDENTS
    ensures Load(ts + tail) == rs[..MAX_STUDENTS]
  {
    LoadFromOverCapacity(ts, rs, tail, MAX_STUDENTS);
  }

  // The arrays the loader fills, and what it leaves in them.

  /** `front` written over the first slots of `base`. */
  function Overlay<T>(front: seq<T>, base: seq<T>): (r: seq<T>)
    requires |front| <= |base|
    ensures |r| == |base|
    ensures forall i :: 0 <= i < |front| ==> r[i] == front[i]
    ensures forall i :: |front| <= i < |base| ==> r[i] == base[i]
  {
    front + base[|front|..]
  }

  /** Writing one more slot after an overlay extends the overlay. */
  lemma OverlayPush<T>(front: seq<T>, base: seq<T>, x: T)
    requires |front| < |base|
    ensures Overlay(front, base)[|front| := x] == Overlay(front + [x], base)
  {
  }

  function NamesOf(rs: seq<StudentRecord>): seq<string>
  {
    seq(|rs|, i requires 0 <= i < |rs| => rs[i].name)
  }

  function ScoresOf(rs: seq<StudentRecord>): seq<seq<int>>
  {
    seq(|rs|, i requires 0 <= i < |rs| => rs[i].scores)
  }

  lemma OfPush(rs: seq<StudentRecord>, k: nat)
    requires k < |rs|
    ensures NamesOf(rs[..k]) + [rs[k].name] == NamesOf(rs[..k + 1])
    ensures ScoresOf(rs[..k]) + [rs[k].scores] == ScoresOf(rs[..k + 1])
  {
    var a, b := ScoresOf(rs[..k]) + [rs[k].scores], ScoresOf(rs[..k + 1]);
    assert |a| == |b|;
    forall i | 0 <= i < |a|
      ensures a[i] == b[i]
    {
      if i < k {
        assert a[i] == rs[..k][i].scores;
      }
    }
  }

  /** The tokens after the records that loading takes. */
  function Leftover(tokens: seq<Token>): seq<Token>
  {
    tokens[RECORD_WIDTH * |Load(tokens)|..]
  }

  /** Reading began a record and dropped it: there was room and tokens were left. */
  predicate Dropped(tokens: seq<Token>)
  {
    |Load(tokens)| < MAX_STUDENTS && Leftover(tokens) != []
  }

  /**
   What reading the scores of an incomplete record stores, slot by slot: the
   integers it has, then the 0 that the failed extraction stores when it
   meets a token that is not an integer. At the end of the input the failed
   extraction stores nothing.
   */
  function Partial(rest: seq<Token>): (vs: seq<int>)
    requires IntRun(rest) < NUM_TESTS
    ensures |vs| == if IntRun(rest) < |rest| then IntRun(rest) + 1 else IntRun(rest)
    ensures |vs| <= NUM_TESTS
  {
    Values(rest[..IntRun(rest)]) + if IntRun(rest) < |rest| then [0] else []
  }

  /** What reading stored for a dropped record. */
  function DroppedScores(tokens: seq<Token>): (vs: seq<int>)
    requires Dropped(tokens)
    ensures |vs| <= NUM_TESTS
  {
    LoadSpec(tokens);
    CompleteRun(Leftover(tokens));
    Partial(Leftover(tokens)[1..])
  }

  /** The names array after reading `tokens` into one that held `before`. */
  function NamesAfter(tokens: seq<Token>, before: seq<string>): seq<string>
    requires |before| >= MAX_STUDENTS
  {
    Overlay(NamesOf(Load(tokens)) + if Dropped(tokens) then [Leftover(tokens)[0].text] else [], before)
  }

  /** The score rows after reading `tokens` into rows that held `before`. */
  function ScoresAfter(tokens: seq<Token>, before: seq<seq<int>>): seq<seq<int>>
    requires |before| >= MAX_STUDENTS
    requires forall i :: 0 <= i < |before| ==> |before[i]| == NUM_TESTS
  {
    var rs := Load(tokens);
    Overlay(ScoresOf(rs) + if Dropped(tokens) then [Overlay(DroppedScores(tokens), before[|rs|])] else [], before)
  }

  /**
   The names array after reading: slot i below the count holds record i's
   name, the slot after them the dropped record's name if there was one, and
   every other slot its old value.
   */
  lemma NamesAfterSpec(tokens: seq<Token>, before: seq<string>)
    requires |before| >= MAX_STUDENTS
    ensures |NamesAfter(tokens, before)| == |before|
    ensures forall i :: 0 <= i < |Load(tokens)| ==> NamesAfter(tokens, before)[i] == Load(tokens)[i].name
    ensures Dropped(tokens) ==>
              NamesAfter(tokens, before)[|Load(tokens)|] == tokens[RECORD_WIDTH * |Load(tokens)|].text
    ensures !Dropped(tokens) && |Load(tokens)| < |before| ==> NamesAfter(tokens, before)[|Load(tokens)|] == before[|Load(tokens)|]
    ensures forall i :: |Load(tokens)| < i < |before| ==> NamesAfter(tokens, before)[i] == before[i]
  {
  }

  /**
   The score rows after reading: row i below the count holds record i's
   scores; the row after them holds, if a record was dropped, the integer
   tokens read for it, then 0 in the slot whose token is not an integer, if
   the input had not ended, then its old values; every other row is unchanged.
   */
  lemma ScoresAfterSpec(tokens: seq<Token>, before: seq<seq<int>>)
    requires |before| >= MAX_STUDENTS
    requires forall i :: 0 <= i < |before| ==> |before[i]| == NUM_TESTS
    ensures |ScoresAfter(tokens, before)| == |before|
    ensures forall i :: 0 <= i < |Load(tokens)| ==> ScoresAfter(tokens, before)[i] == Load(tokens)[i].scores
    ensures Dropped(tokens) ==>
              var rest := Leftover(tokens)[1..];
              var n := IntRun(rest);
              var row := ScoresAfter(tokens, before)[|Load(tokens)|];
              n < NUM_TESTS &&
              (forall t :: 0 <= t < n ==> rest[t].Num? && row[t] == rest[t].value) &&
              (n < |rest| ==> !rest[n].Num? && row[n] == 0) &&
              (forall t :: (if n < |rest| then n + 1 else n) <= t < NUM_TESTS ==> row[t] == before[|Load(tokens)|][t])
    ensures !Dropped(tokens) && |Load(tokens)| < |before| ==> ScoresAfter(tokens, before)[|Load(tokens)|] == before[|Load(tokens)|]
    ensures forall i :: |Load(tokens)| < i < |before| ==> ScoresAfter(tokens, before)[i] == before[i]
  {
    if Dropped(tokens) {
      var rest := Leftover(tokens)[1..];
      var n := IntRun(rest);
      LoadSpec(tokens);
      CompleteRun(Leftover(tokens));
      var vs := DroppedScores(tokens);
      assert vs == Partial(rest);
      assert ScoresAfter(tokens, before)[|Load(tokens)|] == Overlay(vs, before[|Load(tokens)|]);
      forall t | 0 <= t < n
        ensures vs[t] == rest[t].value
      {
        assert rest[..n][t] == rest[t];
      }
      if n < |rest| {
        assert vs[n] == 0;
      }
    }
  }

  /**
   One pass of readStudentData's loop once room is known to be left: reads
   the name token at `cursor` into slot `row` of `names`, then up to NUM_TESTS
   integer tokens into row `row` of `scores`, stopping at the first token that
   is not an integer, where the failed extraction stores 0, or at the end of
   the input. `complete` tells whether all NUM_TESTS were read; `next` is
   where reading goes on.
   */
  method ReadRecord(tokens: seq<Token>, cursor: nat, names: array<string>, scores: array2<int>, row: nat)
    returns (complete: bool, next: nat)
    requires cursor < |tokens| && row < names.Length && row < scores.Length0 && scores.Length1 == NUM_TESTS
    modifies names, scores
    ensures names[..] == old(names[..])[row := tokens[cursor].text]
    ensures complete <==> IntRun(tokens[cursor + 1..]) >= NUM_TESTS
    ensures next == cursor + 1 + if complete then NUM_TESTS else IntRun(tokens[cursor + 1..])
    ensures complete ==>
              Rows(scores) == old(Rows(scores))[row := Overlay(Values(tokens[cursor + 1..][..NUM_TESTS]), old(Rows(scores))[row])]
    ensures !complete ==>
              Rows(scores) == old(Rows(scores))[row := Overlay(Partial(tokens[cursor + 1..]), old(Rows(scores))[row])]
  {
    names[row] := tokens[cursor].text;
    ghost var rest := tokens[cursor + 1..];
    next := cursor + 1;
    complete := true;
    var t := 0;
    while t < NUM_TESTS
      invariant 0 <= t <= NUM_TESTS
      invariant next == cursor + 1 + t <= |tokens|
      invariant forall k :: 0 <= k < t ==> rest[k].Num? && scores[row, k] == rest[k].value
      invariant forall k :: t <= k < NUM_TESTS ==> scores[row, k] == old(scores[row, k])
      invariant forall i, k :: 0 <= i < scores.Length0 && i != row && 0 <= k < NUM_TESTS ==>
                  scores[i, k] == old(scores[i, k])
      modifies scores
    {
      if next < |tokens| && tokens[next].Num? {
        assert tokens[next] == rest[t];
        scores[row, t] := tokens[next].value;
        next := next + 1;
        t := t + 1;
      } else {
        complete := false;
        break;
      }
    }
    if complete {
      assert IntRun(rest) >= NUM_TESTS;
    } else {
      assert t == |rest| || !rest[t].Num?;
      assert IntRun(rest) == t;
      if next < |tokens| {
        scores[row, t] := 0;
      }
    }
    ghost var front := if complete then Values(rest[..t]) else Partial(rest);
    ghost var written := Overlay(front, old(Rows(scores))[row]);
    forall k | 0 <= k < NUM_TESTS
      ensures scores[row, k] == written[k]
    {
      if k < t {
        assert rest[..t][k] == rest[k];
      }
    }
    assert Rows(scores)[row] == written;
    forall i | 0 <= i < scores.Length0 && i != row
      ensures Rows(scores)[i] == old(Rows(scores))[i]
    {
    }
  }

  // Steps of readStudentData's loop, stated on values.

  /** A complete record at the cursor is the next record loaded. */
  lemma NextRecord(tokens: seq<Token>, count: nat)
    requires count < MAX_STUDENTS && count <= |Load(tokens)| && RECORD_WIDTH * count < |tokens|
    requires IntRun(tokens[RECORD_WIDTH * count + 1..]) >= NUM_TESTS
    ensures count < |Load(tokens)|
    ensures Load(tokens)[count] == StudentRecord(tokens[RECORD_WIDTH * count].text,
                                                 Values(tokens[RECORD_WIDTH * count + 1..][..NUM_TESTS]))
  {
    var rest := tokens[RECORD_WIDTH * count..];
    assert Complete(rest) by {
      assert rest[1..] == tokens[RECORD_WIDTH * count + 1..];
      CompleteRun(rest);
    }
    assert count < |Load(tokens)| by {
      LoadFromStops(tokens, MAX_STUDENTS);
    }
    LoadFromAt(tokens, MAX_STUDENTS, count);
    assert rest[1..RECORD_WIDTH] == tokens[RECORD_WIDTH * count + 1..][..NUM_TESTS];
  }

  /** An incomplete record at the cursor ends loading; it is the dropped one. */
  lemma StopAtIncomplete(tokens: seq<Token>, count: nat)
    requires count < MAX_STUDENTS && count <= |Load(tokens)| && RECORD_WIDTH * count < |tokens|
    requires IntRun(tokens[RECORD_WIDTH * count + 1..]) < NUM_TESTS
    ensures count == |Load(tokens)| && Dropped(tokens)
    ensures Leftover(tokens)[0] == tokens[RECORD_WIDTH * count]
    ensures Leftover(tokens)[1..] == tokens[RECORD_WIDTH * count + 1..]
  {
    var rest := tokens[RECORD_WIDTH * count..];
    assert rest[1..] == tokens[RECORD_WIDTH * count + 1..];
    CompleteRun(rest);
    if count < |Load(tokens)| {
      LoadFromAt(tokens, MAX_STUDENTS, count);
    }
  }

  /** Running out of room or of tokens ends loading with nothing dropped. */
  lemma StopAtEnd(tokens: seq<Token>, count: nat)
    requires count <= |Load(tokens)| && RECORD_WIDTH * count <= |tokens|
    requires count == MAX_STUDENTS || RECORD_WIDTH * count == |tokens|
    ensures count == |Load(tokens)| && !Dropped(tokens)
  {
  }

  /** Storing record k after the first k keeps the arrays an overlay of the records loaded so far. */
  lemma StoreRecord(rs: seq<StudentRecord>, k: nat, names0: seq<string>, rows0: seq<seq<int>>)
    requires k < |rs| <= |names0| && |rs| <= |rows0| && |rows0[k]| == |rs[k].scores|
    ensures Overlay(NamesOf(rs[..k]), names0)[k := rs[k].name] == Overlay(NamesOf(rs[..k + 1]), names0)
    ensures Overlay(ScoresOf(rs[..k]), rows0)[k := Overlay(rs[k].scores, rows0[k])] ==
            Overlay(ScoresOf(rs[..k + 1]), rows0)
  {
    OfPush(rs, k);
    OverlayPush(NamesOf(rs[..k]), names0, rs[k].name);
    assert Overlay(rs[k].scores, rows0[k]) == rs[k].scores;
    OverlayPush(ScoresOf(rs[..k]), rows0, rs[k].scores);
  }

  /** The arrays after a dropped record are the overlay of the records with the dropped slot written. */
  lemma StoreDropped(tokens: seq<Token>, names0: seq<string>, rows0: seq<seq<int>>)
    requires Dropped(tokens) && |names0| >= MAX_STUDENTS && |rows0| >= MAX_STUDENTS
    requires forall i :: 0 <= i < |rows0| ==> |rows0[i]| == NUM_TESTS
    ensures Overlay(NamesOf(Load(tokens)), names0)[|Load(tokens)| := Leftover(tokens)[0].text] ==
            NamesAfter(tokens, names0)
    ensures Overlay(ScoresOf(Load(tokens)), rows0)[|Load(tokens)| := Overlay(DroppedScores(tokens), rows0[|Load(tokens)|])] ==
            ScoresAfter(tokens, rows0)
  {
    var rs := Load(tokens);
    OverlayPush(NamesOf(rs), names0, Leftover(tokens)[0].text);
    OverlayPush(ScoresOf(rs), rows0, Overlay(DroppedScores(tokens), rows0[|rs|]));
  }

  /** Without a dropped record the arrays after reading are the overlay of the loaded records. */
  lemma StoreNothing(tokens: seq<Token>, names0: seq<string>, rows0: seq<seq<int>>)
    requires !Dropped(tokens) && |names0| >= MAX_STUDENTS && |rows0| >= MAX_STUDENTS
    requires forall i :: 0 <= i < |rows0| ==> |rows0[i]| == NUM_TESTS
    ensures NamesAfter(tokens, names0) == Overlay(NamesOf(Load(tokens)), names0)
    ensures ScoresAfter(tokens, rows0) == Overlay(ScoresOf(Load(tokens)), rows0)
  {
    assert NamesOf(Load(tokens)) + [] == NamesOf(Load(tokens));
    assert ScoresOf(Load(tokens)) + [] == ScoresOf(Load(tokens));
  }

  /** The initial array contents have room for MAX_STUDENTS records of NUM_TESTS scores. */
  predicate Fits(names0: seq<string>, rows0: seq<seq<int>>)
  {
    |names0| >= MAX_STUDENTS && |rows0| >= MAX_STUDENTS &&
    forall i :: 0 <= i < |rows0| ==> |rows0[i]| == NUM_TESTS
  }

  /**
   The state of readStudentData's loop after `count` records: the cursor has
   consumed `count` whole records, and `names` and `rows` are the first
   `count` loaded records laid over the initial contents.
   */
  predicate Stored(tokens: seq<Token>, count: nat, names: seq<string>, rows: seq<seq<int>>,
                   names0: seq<string>, rows0: seq<seq<int>>)
  {
    count <= |Load(tokens)| && RECORD_WIDTH * count <= |tokens| && Fits(names0, rows0) &&
    names == Overlay(NamesOf(Load(tokens)[..count]), names0) &&
    rows == Overlay(ScoresOf(Load(tokens)[..count]), rows0)
  }

  /** Writing a complete record read at slot `count` moves the loop state on by one record. */
  lemma StoredRecord(tokens: seq<Token>, count: nat, names: seq<string>, rows: seq<seq<int>>,
                     names0: seq<string>, rows0: seq<seq<int>>)
    requires Stored(tokens, count, names, rows, names0, rows0)
    requires count < MAX_STUDENTS && RECORD_WIDTH * count < |tokens|
    requires IntRun(tokens[RECORD_WIDTH * count + 1..]) >= NUM_TESTS
    ensures count < |rows|
    ensures Stored(tokens, count + 1, names[count := tokens[RECORD_WIDTH * count].text],
                   rows[count := Overlay(Values(tokens[RECORD_WIDTH * count + 1..][..NUM_TESTS]), rows[count])],
                   names0, rows0)
  {
    NextRecord(tokens, count);
    StoreRecord(Load(tokens), count, names0, rows0);
  }

  /** Writing an incomplete record read at slot `count` leaves the arrays as NamesAfter and ScoresAfter describe. */
  lemma StoredDropped(tokens: seq<Token>, count: nat, names: seq<string>, rows: seq<seq<int>>,
                      names0: seq<string>, rows0: seq<seq<int>>)
    requires Stored(tokens, count, names, rows, names0, rows0)
    requires count < MAX_STUDENTS && RECORD_WIDTH * count < |tokens|
    requires IntRun(tokens[RECORD_WIDTH * count + 1..]) < NUM_TESTS
    ensures count == |Load(tokens)| && count < |rows|
    ensures names[count := tokens[RECORD_WIDTH * count].text] == NamesAfter(tokens, names0)
    ensures rows[count := Overlay(Partial(tokens[RECORD_WIDTH * count + 1..]), rows[count])] ==
            ScoresAfter(tokens, rows0)
  {
    StopAtIncomplete(tokens, count);
    assert Load(tokens)[..count] == Load(tokens);
    StoreDropped(tokens, names0, rows0);
  }

  /** Reading that ends for lack of room or of tokens leaves the arrays as NamesAfter and ScoresAfter describe. */
  lemma StoredAll(tokens: seq<Token>, count: nat, names: seq<string>, rows: seq<seq<int>>,
                  names0: seq<string>, rows0: seq<seq<int>>)
    requires Stored(tokens, count, names, rows, names0, rows0)
    requires count == MAX_STUDENTS || RECORD_WIDTH * count == |tokens|
    ensures count == |Load(tokens)|
    ensures names == NamesAfter(tokens, names0) && rows == ScoresAfter(tokens, rows0)
  {
    StopAtEnd(tokens, count);
    assert Load(tokens)[..count] == Load(tokens);
    StoreNothing(tokens, names0, rows0);
  }

  /**
   One iteration of readStudentData's loop, with room and tokens left: reads
   the record at slot `count`. When it is complete, `more` holds and the loop
   state has moved on by one record; otherwise reading is over and the arrays
   hold what NamesAfter and ScoresAfter describe.
   */
  method ReadStep(tokens: seq<Token>, count: nat, names: array<string>, scores: array2<int>,
                  ghost names0: seq<string>, ghost rows0: seq<seq<int>>)
    returns (more: bool)
    requires count < MAX_STUDENTS && RECORD_WIDTH * count < |tokens|
    requires names.Length >= MAX_STUDENTS && scores.Length0 >= MAX_STUDENTS && scores.Length1 == NUM_TESTS
    requires Stored(tokens, count, names[..], Rows(scores), names0, rows0)
    modifies names, scores
    ensures more ==> Stored(tokens, count + 1, names[..], Rows(scores), names0, rows0)
    ensures !more ==> count == |Load(tokens)| && names[..] == NamesAfter(tokens, names0) &&
                      Rows(scores) == ScoresAfter(tokens, rows0)
  {
    ghost var names1 := names[..];
    ghost var rows1 := Rows(scores);
    var next;
    ghost var rest := tokens[RECORD_WIDTH * count + 1..];
    more, next := ReadRecord(tokens, RECORD_WIDTH * count, names, scores, count);
    ghost var names2 := names1[count := tokens[RECORD_WIDTH * count].text];
    assert names[..] == names2;
    if more {
      ghost var rows2 := rows1[count := Overlay(Values(rest[..NUM_TESTS]), rows1[count])];
      assert Rows(scores) == rows2;
      StoredRecord(tokens, count, names1, rows1, names0, rows0);
    } else {
      ghost var rows2 := rows1[count := Overlay(Partial(rest), rows1[count])];
      assert Rows(scores) == rows2;
      StoredDropped(tokens, count, names1, rows1, names0, rows0);
    }
  }

  /**
   The reading loop of readStudentData over the tokens of an opened file:
   `count` is the number of records loaded and the arrays hold what
   NamesAfter and ScoresAfter describe.
   */
  method ReadRecords(tokens: seq<Token>, names: array<string>, scores: array2<int>) returns (count: nat)
    requires names.Length >= MAX_STUDENTS && scores.Length0 >= MAX_STUDENTS && scores.Length1 == NUM_TESTS
    modifies names, scores
    ensures count == |Load(tokens)|
    ensures names[..] == NamesAfter(tokens, old(names[..]))
    ensures Rows(scores) == ScoresAfter(tokens, old(Rows(scores)))
  {
    ghost var names0 := names[..];
    ghost var rows0 := Rows(scores);
    count := 0;
    var cursor := 0;
    assert Load(tokens)[..0] == [];
    while count < MAX_STUDENTS && cursor < |tokens|
      invariant cursor == RECORD_WIDTH * count
      invariant Stored(tokens, count, names[..], Rows(scores), names0, rows0)
    {
      var more := ReadStep(tokens, count, names, scores, names0, rows0);
      if !more {
        return;
      }
      count := count + 1;
      cursor := cursor + RECORD_WIDTH;
    }
    StoredAll(tokens, count, names[..], Rows(scores), names0, rows0);
  }

  /**
   readStudentData. `file` is None when the file cannot be opened; then the
   result is false and nothing is written. Otherwise the result is true (also
   for zero records), `count` is the number of records loaded, and the arrays
   hold what NamesAfter and ScoresAfter describe.
   */
  method ReadStudentData(file: Option<seq<Token>>, names: array<string>, scores: array2<int>, studentCount: int)
    returns (ok: bool, count: int)
    requires names.Length >= MAX_STUDENTS && scores.Length0 >= MAX_STUDENTS && scores.Length1 == NUM_TESTS
    modifies names, scores
    ensures ok <==> file.Some?
    ensures !ok ==> count == studentCount && unchanged(names) && unchanged(scores)
    ensures ok ==> count == |Load(file.value)|
    ensures ok ==> names[..] == NamesAfter(file.value, old(names[..]))
    ensures ok ==> Rows(scores) == ScoresAfter(file.value, old(Rows(scores)))
  {
    if file.None? {
      return false, studentCount;
    }
    ok := true;
    count := ReadRecords(file.value, names, scores);
  }
}
