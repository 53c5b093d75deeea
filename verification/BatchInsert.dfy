/** Query::insertfrom and Query::replacefrom of mysqlpp/lib/query.h, driven by the insert policies of
    mysqlpp/lib/insertpolicy.h.

    The server is an oracle: whether its n-th statement succeeds is an arbitrary function of n.  The
    effect of a statement is the list of rows it carries. */
module BatchInsert {
  import opened Basics

  /** What the code asks of a row: its table, its field list and its rendered value list. */
  datatype Row = Row(table: string, fieldList: string, valueList: string)

  datatype Verb = INSERT | REPLACE {
    function Word(): string {
      match this
      case INSERT => "INSERT"
      case REPLACE => "REPLACE"
    }
  }

  /** The beginning of a statement, up to its first row. */
  function Head(verb: Verb, row: Row): string {
    verb.Word() + " INTO `" + row.table + "` (" + row.fieldList + ") VALUES (" + row.valueList + ")"
  }

  /** A further row of a statement. */
  function Tail(row: Row): string {
    ",(" + row.valueList + ")"
  }

  /** The statement that carries the given rows. */
  function Text(verb: Verb, rows: seq<Row>): string {
    if rows == [] then ""
    else if |rows| == 1 then Head(verb, rows[0])
    else Text(verb, rows[..|rows| - 1]) + Tail(rows[|rows| - 1])
  }

  /** The conversion of a stream position or a string length to a 32-bit int. */
  function ToInt(n: nat): int {
    var low := n % TWO_TO_THE_32;
    if low < TWO_TO_THE_31 then low else low - TWO_TO_THE_32
  }

  /** The state of an insert policy.  Custom stands for any policy a user may write: in a run it is
      known by the answers it gives, call after call. */
  datatype Policy =
    | RowCount(curRows: nat, maxRows: nat)
    | SizeThreshold(size: int)
    | MaxPacket(size: int)
    | Custom(calls: nat, answers: nat -> bool)
  {
    predicate Allows(length: int, row: Row) {
      match this
      case RowCount(cur, max) => (cur + 1) % TWO_TO_THE_32 <= max
      case SizeThreshold(size) => length < size
      case MaxPacket(size) => length < size && ToInt(|Tail(row)|) <= size - length
      case Custom(calls, answers) => answers(calls)
    }

    function After(length: int, row: Row): Policy {
      match this
      case RowCount(cur, max) =>
        RowCount(if Allows(length, row) then (cur + 1) % TWO_TO_THE_32 else 0, max)
      case SizeThreshold(_) => this
      case MaxPacket(_) => this
      case Custom(calls, answers) => Custom(calls + 1, answers)
    }
  }

  class InsertPolicy {
    var rule: Policy

    constructor (rule: Policy)
      ensures this.rule == rule
    {
      this.rule := rule;
    }

    method CanAdd(length: int, row: Row) returns (ok: bool)
      modifies this
      ensures ok == old(rule).Allows(length, row)
      ensures rule == old(rule).After(length, row)
    {
      match rule
      case RowCount(cur, max) =>
        var next := (cur + 1) % TWO_TO_THE_32;
        if next > max {
          rule := RowCount(0, max);
          ok := false;
        } else {
          rule := RowCount(next, max);
          ok := true;
        }
      case SizeThreshold(size) =>
        ok := length < size;
      case MaxPacket(size) =>
        if length < size {
          var s := ",(" + row.valueList + ")";
          ok := size - length >= ToInt(|s|);
        } else {
          ok := false;
        }
      case Custom(calls, answers) =>
        ok := answers(calls);
        rule := Custom(calls + 1, answers);
    }
  }

  /** The class that insertfrom wraps its statements in. */
  datatype AccessController = Transaction | NoTransaction

  class Server {
    const verdict: nat -> bool
    /** Statements that reached the server, and those of them that succeeded. */
    var attempts: nat
    var executed: seq<string>
    /** Calls of commit and rollback. */
    var commits: nat
    var rollbacks: nat
    /** The rows that other clients see, and those of the open transaction. */
    ghost var table: seq<Row>
    ghost var open: seq<Row>

    constructor (verdict: nat -> bool)
      ensures this.verdict == verdict
      ensures attempts == 0 && executed == [] && commits == 0 && rollbacks == 0 && table == [] && open == []
    {
      this.verdict := verdict;
      attempts, executed, commits, rollbacks, table, open := 0, [], 0, 0, [], [];
    }

    ghost function Look(): Seen
      reads this
    {
      Seen(attempts, executed, open, table)
    }

    method Begin(ac: AccessController)
      modifies this
      ensures attempts == old(attempts) && executed == old(executed) && table == old(table)
      ensures commits == old(commits) && rollbacks == old(rollbacks)
      ensures open == if ac == Transaction then [] else old(open)
    {
      if ac == Transaction {
        open := [];
      }
    }

    method Execute(ac: AccessController, text: string, ghost verb: Verb, ghost rows: seq<Row>) returns (ok: bool)
      requires text == Text(verb, rows)
      modifies this
      ensures ok == verdict(old(attempts)) && attempts == old(attempts) + 1
      ensures executed == if ok then old(executed) + [text] else old(executed)
      ensures open == if ok && ac == Transaction then old(open) + rows else old(open)
      ensures table == if ok && ac == NoTransaction then old(table) + rows else old(table)
      ensures commits == old(commits) && rollbacks == old(rollbacks)
    {
      ok := verdict(attempts);
      attempts := attempts + 1;
      if ok {
        executed := executed + [text];
        if ac == Transaction {
          open := open + rows;
        } else {
          table := table + rows;
        }
      }
    }

    method Commit(ac: AccessController)
      modifies this
      ensures attempts == old(attempts) && executed == old(executed) && rollbacks == old(rollbacks)
      ensures if ac == Transaction then commits == old(commits) + 1 && table == old(table) + old(open)
              else commits == old(commits) && table == old(table)
    {
      if ac == Transaction {
        commits, table, open := commits + 1, table + open, [];
      }
    }

    method Rollback(ac: AccessController)
      modifies this
      ensures attempts == old(attempts) && executed == old(executed) && commits == old(commits)
      ensures table == old(table)
      ensures rollbacks == old(rollbacks) + if ac == Transaction then 1 else 0
    {
      if ac == Transaction {
        rollbacks, open := rollbacks + 1, [];
      }
    }
  }

  /** How a call ends: by returning, or by an exception. */
  datatype Outcome = Returned | BadQuery | BadInsertPolicy

  // ----- what a call is meant to do -----

  /** The statements a policy asks for, and whether it let every row in. */
  datatype Plan = Plan(batches: seq<seq<Row>>, complete: bool)

  function Nonempty(pending: seq<Row>): seq<seq<Row>> {
    if pending == [] then [] else [pending]
  }

  /** The plan for the rows `rest` when `pending` rows are in the statement being built. */
  function PlanFrom(policy: Policy, verb: Verb, pending: seq<Row>, rest: seq<Row>): Plan
    decreases |rest|
  {
    if rest == [] then Plan(Nonempty(pending), true)
    else
      var row, length := rest[0], ToInt(|Text(verb, pending)|);
      var policy' := policy.After(length, row);
      if policy.Allows(length, row) then PlanFrom(policy', verb, pending + [row], rest[1..])
      else if policy'.Allows(0, row) then
        var later := PlanFrom(policy'.After(0, row), verb, [row], rest[1..]);
        Plan(Nonempty(pending) + later.batches, later.complete)
      else Plan(Nonempty(pending), false)
  }

  function PlanFor(policy: Policy, verb: Verb, rows: seq<Row>): Plan {
    PlanFrom(policy, verb, [], rows)
  }

  /** What is left of the policy when the first k statements succeed and the next one, if there is one, does
      not: `pending` rows are in the statement being built, and `rest` are the others. */
  function PolicyFrom(policy: Policy, verb: Verb, pending: seq<Row>, rest: seq<Row>, k: nat): Policy
    decreases |rest|
  {
    if rest == [] then policy
    else
      var row, length := rest[0], ToInt(|Text(verb, pending)|);
      var policy' := policy.After(length, row);
      if policy.Allows(length, row) then PolicyFrom(policy', verb, pending + [row], rest[1..], k)
      else if pending != [] && k == 0 then policy'
      else if policy'.Allows(0, row) then
        PolicyFrom(policy'.After(0, row), verb, [row], rest[1..], if pending == [] then k else k - 1)
      else policy'.After(0, row)
  }

  /** The policy after a call of which k statements succeeded. */
  function PolicyAfter(policy: Policy, verb: Verb, rows: seq<Row>, k: nat): Policy {
    PolicyFrom(policy, verb, [], rows, k)
  }

  /** The policy is on its way to what it will be after the call, when `sent` statements have succeeded. */
  ghost predicate OnItsWay(rule: Policy, verb: Verb, rows: seq<Row>, sent: nat, pending: seq<Row>, rest: seq<Row>,
                           policy: Policy)
  {
    forall k: nat :: PolicyFrom(policy, verb, pending, rest, k) == PolicyAfter(rule, verb, rows, sent + k)
  }

  lemma PolicyStarts(rule: Policy, verb: Verb, rows: seq<Row>)
    ensures OnItsWay(rule, verb, rows, 0, [], rows, rule)
  {
  }

  lemma PolicyAllowed(rule: Policy, verb: Verb, rows: seq<Row>, sent: nat, pending: seq<Row>, rest: seq<Row>,
                      policy: Policy)
    requires OnItsWay(rule, verb, rows, sent, pending, rest, policy) && rest != []
    requires policy.Allows(ToInt(|Text(verb, pending)|), rest[0])
    ensures OnItsWay(rule, verb, rows, sent, pending + [rest[0]], rest[1..],
                     policy.After(ToInt(|Text(verb, pending)|), rest[0]))
  {
    hide PolicyAfter, ToInt, Text, Policy.After, Policy.Allows;
    var policy' := policy.After(ToInt(|Text(verb, pending)|), rest[0]);
    forall k: nat
      ensures PolicyFrom(policy', verb, pending + [rest[0]], rest[1..], k) == PolicyAfter(rule, verb, rows, sent + k)
    {
      assert PolicyFrom(policy, verb, pending, rest, k) == PolicyAfter(rule, verb, rows, sent + k);
    }
  }

  lemma PolicyRefused(rule: Policy, verb: Verb, rows: seq<Row>, sent: nat, pending: seq<Row>, rest: seq<Row>,
                      policy: Policy)
    requires OnItsWay(rule, verb, rows, sent, pending, rest, policy) && rest != []
    requires !policy.Allows(ToInt(|Text(verb, pending)|), rest[0])
    ensures var policy' := policy.After(ToInt(|Text(verb, pending)|), rest[0]);
      var flushed := if pending == [] then sent else sent + 1;
      && (pending != [] ==> policy' == PolicyAfter(rule, verb, rows, sent))
      && (policy'.Allows(0, rest[0]) ==>
            OnItsWay(rule, verb, rows, flushed, [rest[0]], rest[1..], policy'.After(0, rest[0])))
      && (!policy'.Allows(0, rest[0]) ==> policy'.After(0, rest[0]) == PolicyAfter(rule, verb, rows, flushed))
  {
    hide PolicyAfter, ToInt, Text, Policy.After, Policy.Allows;
    var policy' := policy.After(ToInt(|Text(verb, pending)|), rest[0]);
    var one := if pending == [] then 0 else 1;
    if policy'.Allows(0, rest[0]) {
      forall k: nat
        ensures PolicyFrom(policy'.After(0, rest[0]), verb, [rest[0]], rest[1..], k)
          == PolicyAfter(rule, verb, rows, sent + one + k)
      {
        assert PolicyFrom(policy, verb, pending, rest, one + k) == PolicyAfter(rule, verb, rows, sent + one + k);
      }
    } else {
      assert PolicyFrom(policy, verb, pending, rest, one + 0) == PolicyAfter(rule, verb, rows, sent + one + 0);
    }
    assert pending != [] ==> PolicyFrom(policy, verb, pending, rest, 0) == PolicyAfter(rule, verb, rows, sent + 0);
  }

  lemma PolicyDone(rule: Policy, verb: Verb, rows: seq<Row>, sent: nat, pending: seq<Row>, policy: Policy)
    requires OnItsWay(rule, verb, rows, sent, pending, [], policy)
    ensures policy == PolicyAfter(rule, verb, rows, sent) && policy == PolicyAfter(rule, verb, rows, sent + 1)
  {
    assert PolicyFrom(policy, verb, pending, [], 0) == PolicyAfter(rule, verb, rows, sent + 0);
    assert PolicyFrom(policy, verb, pending, [], 1) == PolicyAfter(rule, verb, rows, sent + 1);
  }

  /** The loop at work, as far as plan and policy go. */
  ghost predicate Midway(rule: Policy, verb: Verb, rows: seq<Row>, sent: seq<seq<Row>>, pending: seq<Row>,
                         rest: seq<Row>, policy: Policy)
  {
    && Underway(PlanFor(rule, verb, rows), verb, sent, pending, rest, policy)
    && OnItsWay(rule, verb, rows, |sent|, pending, rest, policy)
  }

  /** The loop over, likewise. */
  ghost predicate Over(rule: Policy, verb: Verb, rows: seq<Row>, sent: seq<seq<Row>>, failed: bool, success: bool,
                       policy: Policy)
  {
    && Ended(PlanFor(rule, verb, rows), sent, failed, success)
    && policy == PolicyAfter(rule, verb, rows, |sent|)
  }

  lemma MidwayStarts(rule: Policy, verb: Verb, rows: seq<Row>)
    ensures Midway(rule, verb, rows, [], [], rows, rule)
  {
    PlanStarts(rule, verb, rows);
    PolicyStarts(rule, verb, rows);
  }

  lemma MidwayAllowed(rule: Policy, verb: Verb, rows: seq<Row>, sent: seq<seq<Row>>, pending: seq<Row>,
                      rest: seq<Row>, policy: Policy)
    requires Midway(rule, verb, rows, sent, pending, rest, policy) && rest != []
    requires policy.Allows(ToInt(|Text(verb, pending)|), rest[0])
    ensures Midway(rule, verb, rows, sent, pending + [rest[0]], rest[1..],
                   policy.After(ToInt(|Text(verb, pending)|), rest[0]))
  {
    RowAdded(PlanFor(rule, verb, rows), verb, sent, pending, rest, policy);
    PolicyAllowed(rule, verb, rows, |sent|, pending, rest, policy);
  }

  /** The row is refused: what is pending is sent, or that fails and all is over; then the row goes into the
      next statement, or is refused there too and all is over. */
  lemma MidwayRefused(rule: Policy, verb: Verb, rows: seq<Row>, sent: seq<seq<Row>>, pending: seq<Row>,
                      rest: seq<Row>, policy: Policy)
    requires Midway(rule, verb, rows, sent, pending, rest, policy) && rest != []
    requires !policy.Allows(ToInt(|Text(verb, pending)|), rest[0])
    ensures var policy' := policy.After(ToInt(|Text(verb, pending)|), rest[0]);
      && (pending != [] ==> Over(rule, verb, rows, sent, true, false, policy'))
      && if policy'.Allows(0, rest[0]) then
           Midway(rule, verb, rows, Flushed(sent, pending), [rest[0]], rest[1..], policy'.After(0, rest[0]))
         else Over(rule, verb, rows, Flushed(sent, pending), false, false, policy'.After(0, rest[0]))
  {
    hide Underway, OnItsWay, Ended, PolicyAfter, PlanFor, Text, ToInt, Policy.After, Policy.Allows;
    RowRetried(PlanFor(rule, verb, rows), verb, sent, pending, rest, policy);
    PolicyRefused(rule, verb, rows, |sent|, pending, rest, policy);
  }

  lemma MidwayDone(rule: Policy, verb: Verb, rows: seq<Row>, sent: seq<seq<Row>>, pending: seq<Row>, policy: Policy)
    requires Midway(rule, verb, rows, sent, pending, [], policy)
    ensures Over(rule, verb, rows, Flushed(sent, pending), false, true, policy)
    ensures pending != [] ==> Over(rule, verb, rows, sent, true, false, policy)
  {
    RowsDone(PlanFor(rule, verb, rows), verb, sent, pending, policy);
    PolicyDone(rule, verb, rows, |sent|, pending, policy);
  }

  function Flatten(batches: seq<seq<Row>>): seq<Row> {
    if batches == [] then [] else Flatten(batches[..|batches| - 1]) + batches[|batches| - 1]
  }

  function Texts(verb: Verb, batches: seq<seq<Row>>): seq<string> {
    seq(|batches|, i requires 0 <= i < |batches| => Text(verb, batches[i]))
  }

  /** How many of n statements succeed before the first failure, when the server has seen `seen`. */
  function Succeeding(verdict: nat -> bool, seen: nat, n: nat): (k: nat)
    ensures k <= n
    ensures forall j :: seen <= j < seen + k ==> verdict(j)
    ensures k < n ==> !verdict(seen + k)
    decreases n
  {
    if n == 0 || !verdict(seen) then 0 else 1 + Succeeding(verdict, seen + 1, n - 1)
  }

  lemma SucceedingIs(verdict: nat -> bool, seen: nat, n: nat, k: nat)
    requires k <= n && forall j :: seen <= j < seen + k ==> verdict(j)
    requires k < n ==> !verdict(seen + k)
    ensures Succeeding(verdict, seen, n) == k
  {
  }

  /** Part of the rows dealt with: `sent` was executed, `pending` is in the statement being built, and
      the plan for the other rows completes the plan for all. */
  ghost predicate Underway(plan: Plan, verb: Verb, sent: seq<seq<Row>>, pending: seq<Row>, rest: seq<Row>,
                           policy: Policy)
  {
    var later := PlanFrom(policy, verb, pending, rest);
    plan == Plan(sent + later.batches, later.complete)
  }

  lemma RowAdded(plan: Plan, verb: Verb, sent: seq<seq<Row>>, pending: seq<Row>, rest: seq<Row>, policy: Policy)
    requires Underway(plan, verb, sent, pending, rest, policy) && rest != []
    requires policy.Allows(ToInt(|Text(verb, pending)|), rest[0])
    ensures Underway(plan, verb, sent, pending + [rest[0]], rest[1..],
                     policy.After(ToInt(|Text(verb, pending)|), rest[0]))
  {
  }

  /** How the loop may end: with every batch of the plan sent, with a batch that failed, or with a row
      that the policy refuses. */
  ghost predicate Ended(plan: Plan, sent: seq<seq<Row>>, failed: bool, success: bool) {
    if failed then !success && |sent| < |plan.batches| && plan.batches[..|sent|] == sent
    else plan == Plan(sent, success)
  }

  function Flushed(sent: seq<seq<Row>>, pending: seq<Row>): seq<seq<Row>> {
    if pending == [] then sent else sent + [pending]
  }

  lemma RowRetried(plan: Plan, verb: Verb, sent: seq<seq<Row>>, pending: seq<Row>, rest: seq<Row>, policy: Policy)
    requires Underway(plan, verb, sent, pending, rest, policy) && rest != []
    requires !policy.Allows(ToInt(|Text(verb, pending)|), rest[0])
    ensures var policy' := policy.After(ToInt(|Text(verb, pending)|), rest[0]);
      && (policy'.Allows(0, rest[0]) ==>
            Underway(plan, verb, Flushed(sent, pending), [rest[0]], rest[1..], policy'.After(0, rest[0])))
      && (!policy'.Allows(0, rest[0]) ==> Ended(plan, Flushed(sent, pending), false, false))
    ensures pending != [] ==> Ended(plan, sent, true, false)
  {
    hide Text;
    var policy' := policy.After(ToInt(|Text(verb, pending)|), rest[0]);
    assert sent + Nonempty(pending) == Flushed(sent, pending);
    if policy'.Allows(0, rest[0]) {
      var later := PlanFrom(policy'.After(0, rest[0]), verb, [rest[0]], rest[1..]);
      ConcatAssociates(sent, Nonempty(pending), later.batches);
    }
  }

  lemma RowsDone(plan: Plan, verb: Verb, sent: seq<seq<Row>>, pending: seq<Row>, policy: Policy)
    requires Underway(plan, verb, sent, pending, [], policy)
    ensures Ended(plan, Flushed(sent, pending), false, true)
    ensures pending != [] ==> Ended(plan, sent, true, false)
  {
    assert sent + Nonempty(pending) == Flushed(sent, pending);
  }

  lemma FlattenSnoc(batches: seq<seq<Row>>, pending: seq<Row>)
    ensures Flatten(batches + [pending]) == Flatten(batches) + pending
  {
    assert (batches + [pending])[..|batches|] == batches;
  }

  lemma TextsSnoc(verb: Verb, batches: seq<seq<Row>>, pending: seq<Row>)
    ensures Texts(verb, batches + [pending]) == Texts(verb, batches) + [Text(verb, pending)]
  {
  }

  /** A plan neither loses, repeats nor reorders a row: its batches, in order, are the rows, or a proper
      initial part of them when the policy refuses a row even in a statement of its own. */
  lemma {:induction false} PlanKeepsRows(policy: Policy, verb: Verb, pending: seq<Row>, rest: seq<Row>)
    ensures var plan := PlanFrom(policy, verb, pending, rest);
      && (forall j :: 0 <= j < |plan.batches| ==> plan.batches[j] != [])
      && Flatten(plan.batches) <= pending + rest
      && (plan.complete <==> Flatten(plan.batches) == pending + rest)
    decreases |rest|
  {
    OneBatch(pending);
    hide Text, Flatten;
    if rest != [] {
      var row, length := rest[0], ToInt(|Text(verb, pending)|);
      var policy' := policy.After(length, row);
      hide Policy.Allows, Policy.After;
      if policy.Allows(length, row) {
        PlanKeepsRows(policy', verb, pending + [row], rest[1..]);
        assert (pending + [row]) + rest[1..] == pending + rest;
      } else if policy'.Allows(0, row) {
        PlanKeepsRows(policy'.After(0, row), verb, [row], rest[1..]);
        var later := PlanFrom(policy'.After(0, row), verb, [row], rest[1..]);
        assert [row] + rest[1..] == rest;
        FlattenAppend(Nonempty(pending), later.batches);
        PrefixAfter(pending, Flatten(later.batches), rest);
      } else {
        PrefixAfter(pending, [], rest);
      }
    }
  }

  lemma OneBatch(pending: seq<Row>)
    ensures Flatten(Nonempty(pending)) == pending
  {
    assert [pending][..0] == [];
  }

  lemma PrefixAfter(a: seq<Row>, b: seq<Row>, c: seq<Row>)
    requires b <= c
    ensures a + b <= a + c && (a + b == a + c <==> b == c)
    ensures a + [] == a
  {
    assert b == (a + b)[|a|..] && c == (a + c)[|a|..];
  }

  lemma {:induction false} FlattenAppend(a: seq<seq<Row>>, b: seq<seq<Row>>)
    ensures Flatten(a + b) == Flatten(a) + Flatten(b)
  {
    if b == [] {
      assert a + b == a;
    } else {
      var front, last := b[..|b| - 1], b[|b| - 1];
      assert a + b == (a + front) + [last] && b == front + [last];
      FlattenAppend(a, front);
      FlattenSnoc(a + front, last);
      FlattenSnoc(front, last);
    }
  }

  // ----- what the library's own policies make of a plan -----

  lemma TextLength(verb: Verb, pending: seq<Row>, row: Row)
    ensures |Text(verb, pending + [row])| ==
      if pending == [] then |Head(verb, row)| else |Text(verb, pending)| + |Tail(row)|
  {
    assert (pending + [row])[..|pending|] == pending;
  }

  /** The lengths at which the conversions to int are harmless: a row, alone, stays below 2 GiB. */
  ghost predicate Rendered(verb: Verb, rows: seq<Row>) {
    forall j :: 0 <= j < |rows| ==> |Head(verb, rows[j])| < TWO_TO_THE_31 && |Tail(rows[j])| < TWO_TO_THE_31
  }

  /** No statement of two or more rows is longer than size. */
  ghost predicate AtMost(size: int, verb: Verb, batches: seq<seq<Row>>) {
    forall j :: 0 <= j < |batches| ==> |batches[j]| < 2 || |Text(verb, batches[j])| <= size
  }

  /** MaxPacketInsertPolicy keeps every statement of two or more rows within its limit, so that a
      longer statement has exactly one row. */
  lemma {:induction false} MaxPacketBounds(size: int, verb: Verb, pending: seq<Row>, rest: seq<Row>)
    requires size < TWO_TO_THE_31 && Rendered(verb, rest)
    requires |Text(verb, pending)| <= (if |pending| < 2 then TWO_TO_THE_31 - 1 else size)
    ensures AtMost(size, verb, PlanFrom(MaxPacket(size), verb, pending, rest).batches)
    decreases |rest|
  {
    hide Text, Head, Tail;
    if rest != [] {
      var policy, row, length := MaxPacket(size), rest[0], |Text(verb, pending)|;
      TextLength(verb, pending, row);
      TextLength(verb, [], row);
      assert [] + [row] == [row];
      if policy.Allows(ToInt(length), row) {
        MaxPacketBounds(size, verb, pending + [row], rest[1..]);
      } else if policy.Allows(0, row) {
        MaxPacketBounds(size, verb, [row], rest[1..]);
      }
    }
  }

  /** A statement of two or more rows was shorter than size before its last row. */
  ghost predicate BelowBeforeLast(size: int, verb: Verb, batches: seq<seq<Row>>) {
    forall j :: 0 <= j < |batches| ==> WasBelow(size, verb, batches[j])
  }

  ghost predicate WasBelow(size: int, verb: Verb, b: seq<Row>) {
    |b| < 2 || |Text(verb, b[..|b| - 1])| < size
  }

  /** The text of rows that all go into one statement, or into any others, is no longer than this. */
  function TotalLength(verb: Verb, rows: seq<Row>): nat {
    if rows == [] then 0 else |Head(verb, rows[0])| + TotalLength(verb, rows[1..])
  }

  lemma TailIsShorter(verb: Verb, row: Row)
    ensures |Tail(row)| < |Head(verb, row)|
  {
  }

  /** No text comes to 2 GiB: either no row takes a statement below the threshold there, or all rows
      together are shorter. */
  ghost predicate StaysInRange(size: int, verb: Verb, pending: seq<Row>, rest: seq<Row>) {
    || (forall j :: 0 <= j < |rest| ==> size + |Tail(rest[j])| <= TWO_TO_THE_31)
    || |Text(verb, pending)| + TotalLength(verb, rest) < TWO_TO_THE_31
  }

  /** SizeThresholdInsertPolicy adds a row to a statement only while it is below the threshold. */
  lemma {:induction false} SizeThresholdBounds(size: int, verb: Verb, pending: seq<Row>, rest: seq<Row>)
    requires Rendered(verb, rest) && |Text(verb, pending)| < TWO_TO_THE_31
    requires StaysInRange(size, verb, pending, rest)
    requires WasBelow(size, verb, pending)
    ensures BelowBeforeLast(size, verb, PlanFrom(SizeThreshold(size), verb, pending, rest).batches)
    decreases |rest|
  {
    hide Text, Head, Tail;
    if rest != [] {
      var policy, row, length := SizeThreshold(size), rest[0], |Text(verb, pending)|;
      TextLength(verb, pending, row);
      TextLength(verb, [], row);
      TailIsShorter(verb, row);
      assert [] + [row] == [row];
      if policy.Allows(ToInt(length), row) {
        assert (pending + [row])[..|pending|] == pending;
        SizeThresholdBounds(size, verb, pending + [row], rest[1..]);
      } else if policy.Allows(0, row) {
        SizeThresholdBounds(size, verb, [row], rest[1..]);
      }
    }
  }

  /** SizeThresholdInsertPolicy accepts all rows exactly when its threshold is positive, whatever their
      lengths. */
  lemma {:induction false} SizeThresholdAccepts(size: int, verb: Verb, rows: seq<Row>)
    ensures PlanFor(SizeThreshold(size), verb, rows).complete <==> rows == [] || size > 0
  {
    if size > 0 {
      PositiveThresholdAccepts(size, verb, [], rows);
    } else if rows != [] {
      EmptyText(verb);
    }
  }

  lemma {:induction false} PositiveThresholdAccepts(size: int, verb: Verb, pending: seq<Row>, rest: seq<Row>)
    requires size > 0
    ensures PlanFrom(SizeThreshold(size), verb, pending, rest).complete
    decreases |rest|
  {
    hide Text, ToInt;
    if rest != [] {
      if SizeThreshold(size).Allows(ToInt(|Text(verb, pending)|), rest[0]) {
        PositiveThresholdAccepts(size, verb, pending + [rest[0]], rest[1..]);
      } else {
        PositiveThresholdAccepts(size, verb, [rest[0]], rest[1..]);
      }
    }
  }

  lemma MaxPacketAlone(size: int, row: Row)
    requires |Tail(row)| < TWO_TO_THE_31
    ensures MaxPacket(size).Allows(0, row) <==> |row.valueList| + 3 <= size
  {
  }

  /** MaxPacketInsertPolicy accepts all rows exactly when each has room in an empty statement, for its value
      list with two parentheses and a comma. */
  lemma {:induction false} MaxPacketAccepts(size: int, verb: Verb, pending: seq<Row>, rest: seq<Row>)
    requires size < TWO_TO_THE_31 && Rendered(verb, rest)
    requires |Text(verb, pending)| < TWO_TO_THE_31
    ensures PlanFrom(MaxPacket(size), verb, pending, rest).complete <==>
      forall j :: 0 <= j < |rest| ==> |rest[j].valueList| + 3 <= size
    decreases |rest|
  {
    hide Text, Head, Tail;
    if rest != [] {
      var policy, row, length := MaxPacket(size), rest[0], |Text(verb, pending)|;
      MaxPacketAlone(size, row);
      TextLength(verb, pending, row);
      TextLength(verb, [], row);
      assert [] + [row] == [row];
      assert forall j :: 0 < j < |rest| ==> rest[j] == rest[1..][j - 1];
      if policy.Allows(ToInt(length), row) {
        MaxPacketAccepts(size, verb, pending + [row], rest[1..]);
      } else if policy.Allows(0, row) {
        MaxPacketAccepts(size, verb, [row], rest[1..]);
      }
    }
  }

  /** One step of a plan under a row count. */
  lemma PlanOfCount(cur: nat, m: nat, verb: Verb, pending: seq<Row>, rest: seq<Row>)
    requires 1 <= m < TWO_TO_THE_32 - 1 && cur <= m
    ensures PlanFrom(RowCount(cur, m), verb, pending, rest) ==
      if rest == [] then Plan(Nonempty(pending), true)
      else if cur < m then PlanFrom(RowCount(cur + 1, m), verb, pending + [rest[0]], rest[1..])
      else
        var later := PlanFrom(RowCount(1, m), verb, [rest[0]], rest[1..]);
        Plan(Nonempty(pending) + later.batches, later.complete)
  {
    hide Text, ToInt, Policy.Allows, Policy.After;
    if rest != [] {
      CountAllows(cur, m, ToInt(|Text(verb, pending)|), rest[0]);
      CountAllows(0, m, 0, rest[0]);
    }
  }

  lemma CountAllows(cur: nat, m: nat, length: int, row: Row)
    requires 1 <= m < TWO_TO_THE_32 - 1 && cur <= m
    ensures RowCount(cur, m).Allows(length, row) <==> cur < m
    ensures RowCount(cur, m).After(length, row) == RowCount(if cur < m then cur + 1 else 0, m)
  {
  }

  /** Between 1 and m rows in every statement. */
  ghost predicate RowsAtMost(m: nat, batches: seq<seq<Row>>) {
    forall j :: 0 <= j < |batches| ==> 1 <= |batches[j]| <= m
  }

  /** With a RowCountInsertPolicy of limit m no statement exceeds m rows, even if the policy object was
      used before. */
  lemma {:induction false} RowCountBounds(cur: nat, m: nat, verb: Verb, pending: seq<Row>, rest: seq<Row>)
    requires 1 <= m < TWO_TO_THE_32 - 1
    requires |pending| <= cur <= m
    ensures var plan := PlanFrom(RowCount(cur, m), verb, pending, rest);
      plan.complete && RowsAtMost(m, plan.batches)
    decreases |rest|
  {
    hide PlanFrom;
    PlanOfCount(cur, m, verb, pending, rest);
    if rest != [] {
      if cur < m {
        RowCountBounds(cur + 1, m, verb, pending + [rest[0]], rest[1..]);
      } else {
        RowCountBounds(1, m, verb, [rest[0]], rest[1..]);
      }
    }
  }

  /** A counter within its limit stays within it, wherever the call breaks off. */
  lemma {:induction false} CountStays(cur: nat, m: nat, verb: Verb, pending: seq<Row>, rest: seq<Row>, k: nat)
    requires cur <= m
    ensures var after := PolicyFrom(RowCount(cur, m), verb, pending, rest, k);
      after.RowCount? && after.maxRows == m && after.curRows <= m
    decreases |rest|
  {
    hide Text, ToInt;
    if rest != [] {
      var policy, row, length := RowCount(cur, m), rest[0], ToInt(|Text(verb, pending)|);
      var policy' := policy.After(length, row);
      if policy.Allows(length, row) {
        CountStays(policy'.curRows, m, verb, pending + [row], rest[1..], k);
      } else if !(pending != [] && k == 0) && policy'.Allows(0, row) {
        CountStays(policy'.After(0, row).curRows, m, verb, [row], rest[1..], if pending == [] then k else k - 1);
      }
    }
  }

  /** A call of insertfrom, and how many of its statements succeed. */
  datatype Call = Call(verb: Verb, rows: seq<Row>, succeeding: nat)

  /** Over any sequence of calls with one RowCountInsertPolicy object, whatever fails, no statement exceeds
      m rows and no row is refused. */
  lemma {:induction false} ReusedPolicyBounds(m: nat, policies: seq<Policy>, calls: seq<Call>, n: nat)
    requires 1 <= m < TWO_TO_THE_32 - 1 && n < |calls|
    requires |policies| == |calls| && policies[0] == RowCount(0, m)
    requires forall i :: 0 <= i < |calls| - 1 ==>
      policies[i + 1] == PolicyAfter(policies[i], calls[i].verb, calls[i].rows, calls[i].succeeding)
    ensures policies[n].RowCount? && policies[n].maxRows == m && policies[n].curRows <= m
    ensures var plan := PlanFor(policies[n], calls[n].verb, calls[n].rows);
      plan.complete && RowsAtMost(m, plan.batches)
  {
    hide PolicyFrom, PlanFrom;
    if n > 0 {
      ReusedPolicyBounds(m, policies, calls, n - 1);
      var call := calls[n - 1];
      CountStays(policies[n - 1].curRows, m, call.verb, [], call.rows, call.succeeding);
    }
    RowCountBounds(policies[n].curRows, m, calls[n].verb, [], calls[n].rows);
  }

  /** Statements of m rows each, but for the last, which has between 1 and m: n rows in all. */
  ghost predicate Full(m: nat, n: nat, batches: seq<seq<Row>>) {
    if batches == [] then n == 0
    else if |batches| == 1 then |batches[0]| == n && 1 <= n <= m
    else |batches[0]| == m && n >= m && Full(m, n - m, batches[1..])
  }

  /** With a fresh policy every statement but the last is full. */
  lemma {:induction false} RowCountFills(m: nat, verb: Verb, pending: seq<Row>, rest: seq<Row>)
    requires 1 <= m < TWO_TO_THE_32 - 1 && |pending| <= m
    ensures Full(m, |pending| + |rest|, PlanFrom(RowCount(|pending|, m), verb, pending, rest).batches)
    decreases |rest|
  {
    hide PlanFrom;
    PlanOfCount(|pending|, m, verb, pending, rest);
    if rest != [] {
      if |pending| < m {
        RowCountFills(m, verb, pending + [rest[0]], rest[1..]);
      } else {
        RowCountFills(m, verb, [rest[0]], rest[1..]);
        var later := PlanFrom(RowCount(1, m), verb, [rest[0]], rest[1..]).batches;
        assert ([pending] + later)[1..] == later;
      }
    }
  }

  lemma {:induction false} FullCounts(m: nat, n: nat, batches: seq<seq<Row>>)
    requires m >= 1 && Full(m, n, batches)
    ensures m * (|batches| - 1) < n <= m * |batches|
    ensures forall j :: 0 <= j < |batches| - 1 ==> |batches[j]| == m
    decreases |batches|
  {
    if |batches| >= 2 {
      FullCounts(m, n - m, batches[1..]);
      assert m * |batches| == m * (|batches| - 1) + m && m * (|batches| - 1) == m * (|batches| - 2) + m;
      assert forall j :: 0 < j < |batches| ==> batches[j] == batches[1..][j - 1];
    }
  }

  /** Exact batching: with a fresh RowCountInsertPolicy of limit m, n rows make ceil(n / m) statements,
      all full but the last. */
  lemma RowCountIsExact(m: nat, verb: Verb, rows: seq<Row>)
    requires 1 <= m < TWO_TO_THE_32 - 1
    ensures var plan := PlanFor(RowCount(0, m), verb, rows);
      && plan.complete
      && m * (|plan.batches| - 1) < |rows| <= m * |plan.batches|
      && (forall j :: 0 <= j < |plan.batches| - 1 ==> |plan.batches[j]| == m)
      && RowsAtMost(m, plan.batches)
  {
    RowCountBounds(0, m, verb, [], rows);
    RowCountFills(m, verb, [], rows);
    hide PlanFrom;
    FullCounts(m, |rows|, PlanFor(RowCount(0, m), verb, rows).batches);
  }

  /** A limit of zero refuses the first row, and nothing more is sent. */
  lemma ZeroLimitRefuses(verb: Verb, pending: seq<Row>, rest: seq<Row>)
    requires rest != []
    ensures PlanFrom(RowCount(0, 0), verb, pending, rest) == Plan(Nonempty(pending), false)
  {
  }

  /** The largest limit is no limit: the counter wraps around to zero before it could exceed it, so all
      rows go into one statement, however many there are. */
  lemma {:induction false} LargestLimitNeverRefuses(cur: nat, verb: Verb, pending: seq<Row>, rest: seq<Row>)
    ensures PlanFrom(RowCount(cur, TWO_TO_THE_32 - 1), verb, pending, rest) == Plan(Nonempty(pending + rest), true)
    decreases |rest|
  {
    hide Text;
    if rest == [] {
      assert pending + rest == pending;
    } else {
      LargestLimitNeverRefuses((cur + 1) % TWO_TO_THE_32, verb, pending + [rest[0]], rest[1..]);
      assert (pending + [rest[0]]) + rest[1..] == pending + rest;
    }
  }

  /** What has happened on the server, seen from the query. */
  datatype Seen = Seen(attempts: nat, executed: seq<string>, open: seq<Row>, table: seq<Row>)

  /** The server, first seen as `start`, after the statements `sent` succeeded and, if `failed`, one
      more did not. */
  ghost predicate Standing(verdict: nat -> bool, start: Seen, now: Seen, verb: Verb, sent: seq<seq<Row>>,
                           failed: bool, ac: AccessController)
  {
    && now.attempts == start.attempts + |sent| + (if failed then 1 else 0)
    && (forall j :: start.attempts <= j < start.attempts + |sent| ==> verdict(j))
    && (failed ==> !verdict(start.attempts + |sent|))
    && now.executed == start.executed + Texts(verb, sent)
    && (ac == Transaction ==> now.open == Flatten(sent) && now.table == start.table)
    && (ac == NoTransaction ==> now.table == start.table + Flatten(sent))
  }

  lemma StandingAfter(verdict: nat -> bool, start: Seen, now: Seen, now': Seen, verb: Verb, sent: seq<seq<Row>>,
                      pending: seq<Row>, ac: AccessController)
    requires Standing(verdict, start, now, verb, sent, false, ac)
    requires now'.attempts == now.attempts + 1
    requires var ok := verdict(now.attempts);
      && now'.executed == (if ok then now.executed + [Text(verb, pending)] else now.executed)
      && now'.open == (if ok && ac == Transaction then now.open + pending else now.open)
      && now'.table == (if ok && ac == NoTransaction then now.table + pending else now.table)
    ensures if verdict(now.attempts) then Standing(verdict, start, now', verb, sent + [pending], false, ac)
            else Standing(verdict, start, now', verb, sent, true, ac)
  {
    TextsSnoc(verb, sent, pending);
    FlattenSnoc(sent, pending);
    hide Text, Texts, Flatten;
    ConcatAssociates(start.executed, Texts(verb, sent), [Text(verb, pending)]);
    ConcatAssociates(start.table, Flatten(sent), pending);
  }

  lemma StandingStarts(verdict: nat -> bool, start: Seen, verb: Verb, ac: AccessController)
    requires ac == Transaction ==> start.open == []
    ensures Standing(verdict, start, start, verb, [], false, ac)
  {
  }

  lemma StandingMeans(verdict: nat -> bool, start: Seen, now: Seen, verb: Verb, sent: seq<seq<Row>>,
                      failed: bool, ac: AccessController)
    requires Standing(verdict, start, now, verb, sent, failed, ac)
    ensures now.attempts == start.attempts + |sent| + (if failed then 1 else 0)
    ensures now.executed == start.executed + Texts(verb, sent)
    ensures ac == Transaction ==> now.open == Flatten(sent) && now.table == start.table
    ensures ac == NoTransaction ==> now.table == start.table + Flatten(sent)
  {
  }

  lemma EndedMeans(verdict: nat -> bool, start: Seen, now: Seen, verb: Verb, rows: seq<Row>, policy: Policy,
                   sent: seq<seq<Row>>, failed: bool, success: bool, ac: AccessController)
    requires Ended(PlanFor(policy, verb, rows), sent, failed, success)
    requires Standing(verdict, start, now, verb, sent, failed, ac)
    ensures var plan := PlanFor(policy, verb, rows);
      var n := |plan.batches|;
      var k := Succeeding(verdict, start.attempts, n);
      && sent == plan.batches[..k]
      && (failed <==> k < n)
      && (success <==> k == n && plan.complete)
      && (success ==> Flatten(sent) == rows)
  {
    var plan := PlanFor(policy, verb, rows);
    SucceedingIs(verdict, start.attempts, |plan.batches|, |sent|);
    PlanKeepsRows(policy, verb, [], rows);
    assert [] + rows == rows;
  }

  lemma PlanStarts(policy: Policy, verb: Verb, rows: seq<Row>)
    ensures Underway(PlanFor(policy, verb, rows), verb, [], [], rows, policy)
  {
  }

  lemma EmptyText(verb: Verb)
    ensures Text(verb, []) == "" && ToInt(0) == 0
  {
  }

  /** What the stream insertions of the loop make of the statement being built. */
  lemma TextGrows(verb: Verb, pending: seq<Row>, row: Row, sbuffer: string)
    requires sbuffer == Text(verb, pending)
    ensures pending == [] ==>
      sbuffer + verb.Word() + " INTO `" + row.table + "` (" + row.fieldList + ") VALUES (" + row.valueList + ")"
      == Text(verb, pending + [row])
    ensures pending != [] ==> sbuffer + ",(" + row.valueList + ")" == Text(verb, pending + [row])
  {
    assert (pending + [row])[..|pending|] == pending;
    if pending != [] {
      assert sbuffer + ",(" + row.valueList + ")" == sbuffer + Tail(row);
    }
  }

  class Query {
    const throwExceptions: bool
    const server: Server
    var sbuffer: string
    /** The elements of a parsed template and the default parameters; insertfrom starts by clearing them. */
    var parseElems: seq<string>
    var templateDefaults: seq<string>

    constructor (server: Server, throwExceptions: bool)
      ensures this.server == server && this.throwExceptions == throwExceptions
      ensures sbuffer == "" && parseElems == [] && templateDefaults == []
    {
      this.server, this.throwExceptions := server, throwExceptions;
      sbuffer, parseElems, templateDefaults := "", [], [];
    }

    method Reset()
      modifies this
      ensures sbuffer == "" && parseElems == [] && templateDefaults == []
    {
      sbuffer, parseElems, templateDefaults := "", [], [];
    }

    /** exec() on a query that is not a template: what was built is executed, and the query is reset
        after a success and left as it is after a failure. */
    method Exec(ac: AccessController, ghost verb: Verb, ghost rows: seq<Row>) returns (ok: bool, thrown: bool)
      requires parseElems == [] && sbuffer == Text(verb, rows)
      modifies this, server
      ensures parseElems == []
      ensures ok == server.verdict(old(server.attempts)) && server.attempts == old(server.attempts) + 1
      ensures server.executed == if ok then old(server.executed) + [old(sbuffer)] else old(server.executed)
      ensures server.open == if ok && ac == Transaction then old(server.open) + rows else old(server.open)
      ensures server.table == if ok && ac == NoTransaction then old(server.table) + rows else old(server.table)
      ensures server.commits == old(server.commits) && server.rollbacks == old(server.rollbacks)
      ensures sbuffer == if ok then "" else old(sbuffer)
      ensures thrown == (!ok && throwExceptions)
    {
      ok := server.Execute(ac, sbuffer, verb, rows);
      thrown := !ok && throwExceptions;
      if ok && |parseElems| == 0 {
        Reset();
      }
    }

    /** The stream insertions that put one row into the statement being built. */
    method PutRow(verb: Verb, row: Row, first: bool, ghost pending: seq<Row>)
      requires sbuffer == Text(verb, pending) && (first <==> pending == [])
      modifies this`sbuffer
      ensures sbuffer == Text(verb, pending + [row])
    {
      hide Text;
      TextGrows(verb, pending, row, sbuffer);
      if first {
        sbuffer := sbuffer + verb.Word() + " INTO `" + row.table + "` (" + row.fieldList + ") VALUES (";
      } else {
        sbuffer := sbuffer + ",(";
      }
      sbuffer := sbuffer + row.valueList + ")";
    }

    /** exec(), and what the server has seen then. */
    method Flush(ac: AccessController, ghost verb: Verb, ghost pending: seq<Row>, ghost start: Seen,
                 ghost sent: seq<seq<Row>>)
      returns (ok: bool, thrown: bool)
      requires parseElems == [] && sbuffer == Text(verb, pending)
      requires Standing(server.verdict, start, server.Look(), verb, sent, false, ac)
      modifies this, server
      ensures parseElems == [] && (ok ==> sbuffer == "") && thrown == (!ok && throwExceptions)
      ensures if ok then Standing(server.verdict, start, server.Look(), verb, sent + [pending], false, ac)
              else Standing(server.verdict, start, server.Look(), verb, sent, true, ac)
      ensures server.commits == old(server.commits) && server.rollbacks == old(server.rollbacks)
    {
      hide Standing, Text;
      ghost var before := server.Look();
      ok, thrown := Exec(ac, verb, pending);
      StandingAfter(server.verdict, start, before, server.Look(), verb, sent, pending, ac);
    }

    /** The loop of insertfrom, and the execution of the last statement.  `sent` are the statements that
        succeeded; `failed` tells whether one more was tried and did not. */
    method SendRows(verb: Verb, rows: seq<Row>, policy: InsertPolicy, ac: AccessController)
      returns (success: bool, outcome: Outcome, ghost sent: seq<seq<Row>>, ghost failed: bool)
      requires sbuffer == "" && parseElems == []
      requires ac == Transaction ==> server.open == []
      modifies this, server, policy
      ensures Over(old(policy.rule), verb, rows, sent, failed, success, policy.rule)
      ensures Standing(server.verdict, old(server.Look()), server.Look(), verb, sent, failed, ac)
      ensures server.commits == old(server.commits) && server.rollbacks == old(server.rollbacks)
      ensures outcome ==
        (if success || !throwExceptions then Returned else if failed then BadQuery else BadInsertPolicy)
    {
      outcome, success, sent, failed := Returned, true, [], false;
      var empty := true;
      ghost var pending: seq<Row> := [];
      ghost var commits0, rollbacks0 := server.commits, server.rollbacks;
      ghost var start, rule0 := server.Look(), policy.rule;
      MidwayStarts(rule0, verb, rows);
      StandingStarts(server.verdict, start, verb, ac);
      EmptyText(verb);
      var it := 0;
      assert rows[it..] == rows;
      hide Midway, Over, Text, Standing, ToInt, Policy.Allows, Policy.After;
      while it != |rows|
        invariant 0 <= it <= |rows|
        invariant success && !failed && outcome == Returned
        invariant empty <==> pending == []
        invariant sbuffer == Text(verb, pending) && parseElems == []
        invariant Midway(rule0, verb, rows, sent, pending, rows[it..], policy.rule)
        invariant Standing(server.verdict, start, server.Look(), verb, sent, failed, ac)
        invariant server.commits == commits0 && server.rollbacks == rollbacks0
      {
        ghost var rest, rule := rows[it..], policy.rule;
        var row := rows[it];
        assert rest[0] == row && rest[1..] == rows[it + 1..];
        var allowed := policy.CanAdd(ToInt(|sbuffer|), row);
        if allowed {
          MidwayAllowed(rule0, verb, rows, sent, pending, rest, rule);
          PutRow(verb, row, empty, pending);
          empty := false;
          pending := pending + [row];
        } else {
          MidwayRefused(rule0, verb, rows, sent, pending, rest, rule);
          if !empty {
            var executed, threw := Flush(ac, verb, pending, start, sent);
            if !executed {
              success, failed := false, true;
              if threw {
                outcome := BadQuery;
              }
              break;
            }
            sent, pending := sent + [pending], [];
            empty := true;
          }
          EmptyText(verb);
          allowed := policy.CanAdd(ToInt(|sbuffer|), row);
          if allowed {
            PutRow(verb, row, true, []);
            assert [] + [row] == [row];
            empty := false;
            pending := [row];
          } else {
            if throwExceptions {
              outcome := BadInsertPolicy;
            }
            success := false;
            break;
          }
        }
        it := it + 1;
      }
      if success {
        assert rows[it..] == [];
        MidwayDone(rule0, verb, rows, sent, pending, policy.rule);
      }
      if success && !empty {
        var executed, threw := Flush(ac, verb, pending, start, sent);
        if executed {
          sent := sent + [pending];
        } else {
          success, failed := false, true;
          if threw {
            outcome := BadQuery;
          }
        }
      }
    }

    /** insertfrom (verb INSERT) and replacefrom (verb REPLACE). */
    method InsertFrom(verb: Verb, rows: seq<Row>, policy: InsertPolicy, ac: AccessController) returns (outcome: Outcome)
      modifies this, server, policy
      ensures rows == [] ==>
        && outcome == Returned && unchanged(server) && unchanged(policy)
      ensures rows != [] ==>
        var plan := PlanFor(old(policy.rule), verb, rows);
        var n := |plan.batches|;
        var k := Succeeding(server.verdict, old(server.attempts), n);
        var done := k == n && plan.complete;
        && server.executed == old(server.executed) + Texts(verb, plan.batches[..k])
        && server.attempts == old(server.attempts) + (if k < n then k + 1 else n)
        && policy.rule == PolicyAfter(old(policy.rule), verb, rows, k)
        && outcome == (if done || !throwExceptions then Returned else if k < n then BadQuery else BadInsertPolicy)
        && (ac == Transaction ==>
              && server.commits == old(server.commits) + (if done then 1 else 0)
              && server.rollbacks == old(server.rollbacks) + (if done then 0 else 1)
              && server.table == old(server.table) + (if done then rows else []))
        && (ac == NoTransaction ==>
              && server.commits == old(server.commits) && server.rollbacks == old(server.rollbacks)
              && server.table == old(server.table) + Flatten(plan.batches[..k]))
    {
      outcome := Returned;
      Reset();
      if rows == [] {
        return;
      }
      server.Begin(ac);
      ghost var start, rule := server.Look(), policy.rule;
      hide Ended, Text, Texts, Flatten, Standing, PlanFor, Succeeding;
      var success: bool;
      ghost var sent, failed;
      success, outcome, sent, failed := SendRows(verb, rows, policy, ac);
      ghost var now := server.Look();
      EndedMeans(server.verdict, start, now, verb, rows, rule, sent, failed, success, ac);
      StandingMeans(server.verdict, start, now, verb, sent, failed, ac);
      if success {
        server.Commit(ac);
      } else {
        server.Rollback(ac);
      }
    }
  }
}
