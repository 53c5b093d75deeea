/** What insertfrom and replacefrom send, letter by letter, and where one statement ends. */
module StatementText {
  import opened Basics
  import opened BatchInsert

  /** The value lists of the rows, with what stands between two of them. */
  function Joined(rows: seq<Row>): string
    requires rows != []
  {
    if |rows| == 1 then rows[0].valueList
    else rows[0].valueList + "),(" + Joined(rows[1..])
  }

  lemma {:induction false} JoinedSnoc(rows: seq<Row>, row: Row)
    requires rows != []
    ensures Joined(rows + [row]) == Joined(rows) + "),(" + row.valueList
  {
    var all := rows + [row];
    if |rows| == 1 {
      assert all[1..] == [row];
    } else {
      JoinedSnoc(rows[1..], row);
      assert all[1..] == rows[1..] + [row];
      hide Joined;
      var first := rows[0].valueList + "),(";
      ConcatAssociates(first, Joined(rows[1..]) + "),(", row.valueList);
      ConcatAssociates(first, Joined(rows[1..]), "),(");
      assert Joined(all) == first + Joined(all[1..]) && Joined(rows) == first + Joined(rows[1..]) by {
        JoinedCons(all);
        JoinedCons(rows);
      }
    }
  }

  lemma JoinedCons(rows: seq<Row>)
    requires |rows| > 1
    ensures Joined(rows) == rows[0].valueList + "),(" + Joined(rows[1..])
  {
  }

  /** The text of a statement: the table and the fields of its first row, and the values of all. */
  lemma {:induction false} TextOf(verb: Verb, rows: seq<Row>)
    requires rows != []
    ensures Text(verb, rows) ==
      (match verb case INSERT => "INSERT INTO `" case REPLACE => "REPLACE INTO `") +
      rows[0].table + "` (" + rows[0].fieldList + ") VALUES (" + Joined(rows) + ")"
  {
    var start := (match verb case INSERT => "INSERT INTO `" case REPLACE => "REPLACE INTO `") +
      rows[0].table + "` (" + rows[0].fieldList + ") VALUES (";
    if |rows| == 1 {
      HeadOf(verb, rows[0]);
    } else {
      var front, last := rows[..|rows| - 1], rows[|rows| - 1];
      TextOf(verb, front);
      JoinedSnoc(front, last);
      assert rows == front + [last];
      TailOf(last);
      hide Head, Tail, Joined;
      assert start + Joined(front) + ")" + ",(" + last.valueList + ")" ==
        start + (Joined(front) + "),(" + last.valueList) + ")" by {
        Rejoined(start, Joined(front), last.valueList);
      }
      ConcatAssociates(start + Joined(front) + ")", ",(" + last.valueList, ")");
      ConcatAssociates(start + Joined(front) + ")", ",(", last.valueList);
    }
  }

  lemma HeadOf(verb: Verb, row: Row)
    ensures Head(verb, row) ==
      (match verb case INSERT => "INSERT INTO `" case REPLACE => "REPLACE INTO `") +
      row.table + "` (" + row.fieldList + ") VALUES (" + row.valueList + ")"
  {
    assert "INSERT" + " INTO `" == "INSERT INTO `" && "REPLACE" + " INTO `" == "REPLACE INTO `";
  }

  lemma TailOf(row: Row)
    ensures Tail(row) == ",(" + row.valueList + ")"
  {
  }

  lemma Rejoined(start: string, values: string, last: string)
    ensures start + values + ")" + ",(" + last + ")" == start + (values + "),(" + last) + ")"
  {
    ConcatAssociates(start, values, "),(");
    ConcatAssociates(start, values + "),(", last);
    ConcatAssociates(start + values, ")", ",(");
    assert ")" + ",(" == "),(";
  }

  /** The statements of a call, as they reach the server. */
  lemma SentTexts(verb: Verb, batches: seq<seq<Row>>)
    requires forall j :: 0 <= j < |batches| ==> batches[j] != []
    ensures |Texts(verb, batches)| == |batches|
    ensures forall j :: 0 <= j < |batches| ==>
      var word := match verb case INSERT => "INSERT INTO `" case REPLACE => "REPLACE INTO `";
      var first := batches[j][0];
      Texts(verb, batches)[j] ==
        word + first.table + "` (" + first.fieldList + ") VALUES (" + Joined(batches[j]) + ")"
  {
    hide Text, Joined;
    forall j | 0 <= j < |batches|
      ensures Texts(verb, batches)[j] ==
        (match verb case INSERT => "INSERT INTO `" case REPLACE => "REPLACE INTO `") +
        batches[j][0].table + "` (" + batches[j][0].fieldList + ") VALUES (" + Joined(batches[j]) + ")"
    {
      TextOf(verb, batches[j]);
    }
  }

  // ----- where a statement ends -----

  lemma {:induction false} StartsWithPending(policy: Policy, verb: Verb, pending: seq<Row>, rest: seq<Row>)
    requires pending != []
    ensures var batches := PlanFrom(policy, verb, pending, rest).batches;
      batches != [] && batches[0] != [] && batches[0][0] == pending[0]
    decreases |rest|
  {
    hide Text, ToInt, Policy.Allows, Policy.After;
    if rest != [] {
      var length := ToInt(|Text(verb, pending)|);
      if policy.Allows(length, rest[0]) {
        StartsWithPending(policy.After(length, rest[0]), verb, pending + [rest[0]], rest[1..]);
      }
    }
  }

  /** `closes` says of a statement and a row that the row does not go into it: it did not go there. */
  ghost predicate ClosedAt(closes: (seq<Row>, Row) -> bool, batches: seq<seq<Row>>, j: nat)
    requires j + 1 < |batches|
  {
    batches[j + 1] != [] && closes(batches[j], batches[j + 1][0])
  }

  ghost predicate AllClosed(closes: (seq<Row>, Row) -> bool, batches: seq<seq<Row>>) {
    forall j :: 0 <= j < |batches| - 1 ==> ClosedAt(closes, batches, j)
  }

  lemma ClosedCons(closes: (seq<Row>, Row) -> bool, first: seq<Row>, later: seq<seq<Row>>)
    requires AllClosed(closes, later)
    requires later != [] ==> later[0] != [] && closes(first, later[0][0])
    ensures AllClosed(closes, [first] + later)
  {
    var batches := [first] + later;
    forall j | 0 <= j < |batches| - 1
      ensures ClosedAt(closes, batches, j)
    {
      assert batches[j + 1] == later[j];
      if j > 0 {
        assert batches[j] == later[j - 1];
        assert ClosedAt(closes, later, j - 1);
      }
    }
  }

  /** A refused row begins the next statement. */
  lemma ClosedByRow(closes: (seq<Row>, Row) -> bool, policy: Policy, verb: Verb, pending: seq<Row>, row: Row,
                    rest: seq<Row>)
    requires AllClosed(closes, PlanFrom(policy, verb, [row], rest).batches)
    requires pending != [] ==> closes(pending, row)
    ensures AllClosed(closes, Nonempty(pending) + PlanFrom(policy, verb, [row], rest).batches)
  {
    hide PlanFrom;
    StartsWithPending(policy, verb, [row], rest);
    var later := PlanFrom(policy, verb, [row], rest).batches;
    if pending != [] {
      ClosedCons(closes, pending, later);
    } else {
      assert Nonempty(pending) + later == later;
    }
  }

  /** The lengths after one row, in this statement or in the next one. */
  lemma RowLengths(verb: Verb, pending: seq<Row>, rest: seq<Row>)
    requires rest != [] && Rendered(verb, rest)
    ensures Rendered(verb, rest[1..])
    ensures |Text(verb, [rest[0]])| == |Head(verb, rest[0])| < TWO_TO_THE_31
    ensures |rest[0].valueList| + 3 == |Tail(rest[0])| < |Head(verb, rest[0])|
    ensures |Text(verb, pending + [rest[0]])| ==
      if pending == [] then |Head(verb, rest[0])| else |Text(verb, pending)| + |Tail(rest[0])|
  {
    TailIsShort(rest[0]);
    TailIsShorter(verb, rest[0]);
    hide Head, Tail;
    TextLength(verb, pending, rest[0]);
    TextLength(verb, [], rest[0]);
    assert [] + [rest[0]] == [rest[0]];
  }

  lemma RangeAfterRow(size: int, verb: Verb, pending: seq<Row>, rest: seq<Row>)
    requires rest != [] && Rendered(verb, rest) && StaysInRange(size, verb, pending, rest)
    ensures StaysInRange(size, verb, [rest[0]], rest[1..])
    ensures StaysInRange(size, verb, pending + [rest[0]], rest[1..])
    ensures |Text(verb, pending)| < size ==> |Text(verb, pending + [rest[0]])| < TWO_TO_THE_31
  {
    hide Text, Head, Tail;
    RowLengths(verb, pending, rest);
  }

  /** One step of a plan under a packet limit. */
  lemma PlanOfPacket(size: int, verb: Verb, pending: seq<Row>, rest: seq<Row>)
    requires rest != [] && |Text(verb, pending)| < TWO_TO_THE_31 && |Tail(rest[0])| < TWO_TO_THE_31
    ensures PlanFrom(MaxPacket(size), verb, pending, rest) ==
      if |Text(verb, pending)| + |rest[0].valueList| + 3 <= size then
        PlanFrom(MaxPacket(size), verb, pending + [rest[0]], rest[1..])
      else if |rest[0].valueList| + 3 <= size then
        var later := PlanFrom(MaxPacket(size), verb, [rest[0]], rest[1..]);
        Plan(Nonempty(pending) + later.batches, later.complete)
      else Plan(Nonempty(pending), false)
  {
    PacketAllows(size, |Text(verb, pending)|, rest[0]);
    PacketAllows(size, 0, rest[0]);
    hide Text, Tail, ToInt, Policy.Allows, Policy.After;
  }

  lemma PacketAllows(size: int, length: nat, row: Row)
    requires length < TWO_TO_THE_31 && |Tail(row)| < TWO_TO_THE_31
    ensures MaxPacket(size).Allows(ToInt(length), row) <==> length + |row.valueList| + 3 <= size
    ensures MaxPacket(size).After(ToInt(length), row) == MaxPacket(size) && ToInt(0) == 0
  {
    TailIsShort(row);
    hide Tail;
  }

  /** MaxPacketInsertPolicy ends a statement only when the next row would take it over the limit. */
  lemma {:induction false} MaxPacketFills(size: int, verb: Verb, pending: seq<Row>, rest: seq<Row>)
    requires size < TWO_TO_THE_31 && Rendered(verb, rest) && |Text(verb, pending)| < TWO_TO_THE_31
    ensures AllClosed((b, row) => |Text(verb, b + [row])| > size,
                      PlanFrom(MaxPacket(size), verb, pending, rest).batches)
    decreases |rest|
  {
    hide Text, Head, Tail, AllClosed, Rendered, PlanFrom;
    var closes := (b, row) => |Text(verb, b + [row])| > size;
    if rest == [] {
      PlanAtEnd(MaxPacket(size), verb, pending);
      FewBatches(closes, pending);
    } else {
      RowLengths(verb, pending, rest);
      PlanOfPacket(size, verb, pending, rest);
      if |Text(verb, pending)| + |rest[0].valueList| + 3 <= size {
        MaxPacketFills(size, verb, pending + [rest[0]], rest[1..]);
      } else if |rest[0].valueList| + 3 <= size {
        MaxPacketFills(size, verb, [rest[0]], rest[1..]);
        ClosedByRow(closes, MaxPacket(size), verb, pending, rest[0], rest[1..]);
      } else {
        FewBatches(closes, pending);
      }
    }
  }

  lemma PlanAtEnd(policy: Policy, verb: Verb, pending: seq<Row>)
    ensures PlanFrom(policy, verb, pending, []) == Plan(Nonempty(pending), true)
  {
  }

  lemma TailIsShort(row: Row)
    ensures |Tail(row)| == |row.valueList| + 3
  {
  }

  lemma FewBatches(closes: (seq<Row>, Row) -> bool, pending: seq<Row>)
    ensures AllClosed(closes, Nonempty(pending))
  {
  }

  /** One step of a plan under a size threshold. */
  lemma PlanOfThreshold(size: int, verb: Verb, pending: seq<Row>, rest: seq<Row>)
    requires rest != [] && |Text(verb, pending)| < TWO_TO_THE_31
    ensures PlanFrom(SizeThreshold(size), verb, pending, rest) ==
      if |Text(verb, pending)| < size then PlanFrom(SizeThreshold(size), verb, pending + [rest[0]], rest[1..])
      else if 0 < size then
        var later := PlanFrom(SizeThreshold(size), verb, [rest[0]], rest[1..]);
        Plan(Nonempty(pending) + later.batches, later.complete)
      else Plan(Nonempty(pending), false)
  {
    ThresholdAllows(size, |Text(verb, pending)|, rest[0]);
    ThresholdAllows(size, 0, rest[0]);
    hide Text, ToInt, Policy.Allows, Policy.After;
  }

  lemma ThresholdAllows(size: int, length: nat, row: Row)
    requires length < TWO_TO_THE_31
    ensures SizeThreshold(size).Allows(ToInt(length), row) <==> length < size
    ensures SizeThreshold(size).After(ToInt(length), row) == SizeThreshold(size) && ToInt(0) == 0
  {
  }

  /** SizeThresholdInsertPolicy ends a statement only when it has reached the threshold. */
  lemma {:induction false} SizeThresholdFills(size: int, verb: Verb, pending: seq<Row>, rest: seq<Row>)
    requires Rendered(verb, rest) && |Text(verb, pending)| < TWO_TO_THE_31
    requires StaysInRange(size, verb, pending, rest)
    ensures AllClosed((b, row) => |Text(verb, b)| >= size,
                      PlanFrom(SizeThreshold(size), verb, pending, rest).batches)
    decreases |rest|
  {
    hide Text, Head, Tail, AllClosed, Rendered, StaysInRange, PlanFrom;
    var closes := (b, row) => |Text(verb, b)| >= size;
    if rest == [] {
      PlanAtEnd(SizeThreshold(size), verb, pending);
      FewBatches(closes, pending);
    } else {
      RowLengths(verb, pending, rest);
      RangeAfterRow(size, verb, pending, rest);
      PlanOfThreshold(size, verb, pending, rest);
      if |Text(verb, pending)| < size {
        SizeThresholdFills(size, verb, pending + [rest[0]], rest[1..]);
      } else if 0 < size {
        SizeThresholdFills(size, verb, [rest[0]], rest[1..]);
        ClosedByRow(closes, SizeThreshold(size), verb, pending, rest[0], rest[1..]);
      } else {
        FewBatches(closes, pending);
      }
    }
  }

  /** A policy of the user's own is asked once for a row that it accepts, and once more, after the statement
      was sent, for one that it refuses. */
  lemma PlanOfCustom(n: nat, answers: nat -> bool, verb: Verb, pending: seq<Row>, rest: seq<Row>)
    requires rest != []
    ensures PlanFrom(Custom(n, answers), verb, pending, rest) ==
      if answers(n) then PlanFrom(Custom(n + 1, answers), verb, pending + [rest[0]], rest[1..])
      else if answers(n + 1) then
        var later := PlanFrom(Custom(n + 2, answers), verb, [rest[0]], rest[1..]);
        Plan(Nonempty(pending) + later.batches, later.complete)
      else Plan(Nonempty(pending), false)
  {
    hide Text, ToInt;
  }

  /** The conversion to int: what a 32-bit int can hold, and the same number modulo 2^32. */
  lemma ToIntMeans(n: nat)
    ensures -0x8000_0000 <= ToInt(n) < 0x8000_0000
    ensures (n - ToInt(n)) % 0x1_0000_0000 == 0
  {
  }
}
