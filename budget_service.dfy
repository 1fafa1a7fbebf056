/** The in-memory budget service: a fixed table of envelope rows that can be
    listed by month, and a list of rules that grows by one record per
    `createRule` call. Both async functions of the service are modelled as
    synchronous; the clock reading `Date.now()` is an argument. */
module BudgetService {

  import opened Wrappers
  import NumberText

  /** The `tests` and `actions` documents of a rule. The service never looks
      inside them: it stores and returns them as it received them. */
  type Document(==)

  /** One row of the envelope table; money in integer cents. */
  datatype Envelope = Envelope(
    id: string,
    name: string,
    month: string,
    plannedCents: int,
    actualCents: int)

  /** A stored rule. */
  datatype Rule = Rule(
    id: string,
    priority: int,
    tests: Document,
    actions: Document,
    isActive: bool)

  /** The envelope table the service starts with. */
  const FoodSeptember := Envelope("food", "Food", "2025-09", 40000, 12345)

  function SeedEnvelopes(): seq<Envelope> {
    [FoodSeptember]
  }

  // ---------------------------------------------------------------------
  // Listing envelopes

  /** JavaScript truthiness of the `month` argument: a month is given when it
      is present, not `null`, and not the empty string. */
  function MonthGiven(month: Option<string>): (given: bool)
    ensures !given <==> month == None || month == Some("")
  {
    month.Some? && month.value != ""
  }

  /** `a` is `b` with some elements left out, the rest in their order. */
  predicate IsSubsequence<T(==)>(a: seq<T>, b: seq<T>)
    decreases |b|
  {
    if a == [] then true
    else if b == [] then false
    else if a[0] == b[0] then IsSubsequence(a[1..], b[1..])
    else IsSubsequence(a, b[1..])
  }

  /** The rows of `table` whose month is `m`: every such row is kept, as often
      as it occurs, no other row is, and the order is that of `table`. */
  function FilterByMonth(table: seq<Envelope>, m: string): (r: seq<Envelope>)
    ensures IsSubsequence(r, table)
    ensures forall i :: 0 <= i < |r| ==> r[i].month == m
    ensures forall e :: multiset(r)[e] == if e.month == m then multiset(table)[e] else 0
    decreases |table|
  {
    if table == [] then []
    else
      var rest := FilterByMonth(table[1..], m);
      assert table == [table[0]] + table[1..];
      if table[0].month == m then
        assert ([table[0]] + rest)[1..] == rest;
        [table[0]] + rest
      else
        assert rest != [] ==> rest[0] != table[0];
        rest
  }

  lemma {:induction false} SubsequenceMultiset<T>(a: seq<T>, b: seq<T>)
    requires IsSubsequence(a, b)
    ensures multiset(a) <= multiset(b)
    decreases |b|
  {
    if a != [] {
      assert b == [b[0]] + b[1..];
      if a[0] == b[0] {
        assert a == [a[0]] + a[1..];
        SubsequenceMultiset(a[1..], b[1..]);
      } else {
        SubsequenceMultiset(a, b[1..]);
      }
    }
  }

  /** The contract of `FilterByMonth` determines its result: any sequence
      that is a subsequence of `table`, holds only rows of month `m`, and holds
      each such row as often as `table` does, is the filtered table. */
  lemma {:induction false} FilterByMonthUnique(table: seq<Envelope>, m: string, s: seq<Envelope>)
    requires IsSubsequence(s, table)
    requires forall i :: 0 <= i < |s| ==> s[i].month == m
    requires forall e: Envelope :: e.month == m ==> multiset(s)[e] == multiset(table)[e]
    ensures s == FilterByMonth(table, m)
    decreases |table|
  {
    if table == [] {
    } else {
      var t := table[0];
      var rest := table[1..];
      assert table == [t] + rest;
      if t.month == m {
        assert t in multiset(table);
        assert s != [];
        assert s == [s[0]] + s[1..];
        if s[0] == t {
          forall e: Envelope | e.month == m
            ensures multiset(s[1..])[e] == multiset(rest)[e]
          {
          }
          FilterByMonthUnique(rest, m, s[1..]);
        } else {
          SubsequenceMultiset(s, rest);
          assert false;
        }
      } else {
        if s != [] {
          assert s[0] != t;
        }
        assert IsSubsequence(s, rest);
        forall e: Envelope | e.month == m
          ensures multiset(s)[e] == multiset(rest)[e]
        {
        }
        FilterByMonthUnique(rest, m, s);
      }
    }
  }

  // ---------------------------------------------------------------------
  // Creating rules

  /** `isActive ?? true`: an absent or `null` flag means active. */
  function ActiveOrDefault(isActive: Option<bool>): (b: bool)
    ensures !b <==> isActive == Some(false)
  {
    match isActive
    case None => true
    case Some(v) => v
  }

  /** Reads the clock reading back out of a rule id. */
  function RuleIdTime(id: string): (r: Option<nat>)
  {
    if |id| >= 2 && id[..2] == "r_" then NumberText.ParseNat(id[2..]) else None
  }

  /** The id `r_<now>` of a rule created at clock reading `now`: the prefix
      `r_` and then the shortest decimal text of `now`, which reads back as
      `now` and has no leading zero. */
  function RuleId(now: nat): (id: string)
    ensures |id| > 2 && id[..2] == "r_"
    ensures RuleIdTime(id) == Some(now)
    ensures id == "r_0" || id[2] != '0'
  {
    var id := "r_" + NumberText.Digits(now);
    assert id[2..] == NumberText.Digits(now);
    NumberText.ParseDigits(now);
    id
  }

  /** Ids are unique only per clock reading: two rules get the same id
      exactly when they are created at the same millisecond. */
  lemma RuleIdsCollide(a: nat, b: nat)
    ensures RuleId(a) == RuleId(b) <==> a == b
  {
  }

  /** The record `createRule` builds from its arguments. */
  function NewRule(priority: int, tests: Document, actions: Document,
                   isActive: Option<bool>, now: nat): (r: Rule)
    ensures r.id == RuleId(now)
    ensures r.priority == priority && r.tests == tests && r.actions == actions
    ensures r.isActive <==> isActive != Some(false)
  {
    Rule(RuleId(now), priority, tests, actions, ActiveOrDefault(isActive))
  }

  // ---------------------------------------------------------------------
  // The service state

  class Service {
    /** The module-level `rules` list, appended to by `CreateRule`. */
    var rules: seq<Rule>
    /** The module-level envelope table, bound once and never reassigned. */
    const envelopes: seq<Envelope>

    /** The state when the module is loaded. */
    constructor ()
      ensures rules == [] && envelopes == SeedEnvelopes()
    {
      rules := [];
      envelopes := SeedEnvelopes();
    }

    /** Every stored rule has a priority of at least one, as the route
        that calls `createRule` requires of its input. */
    ghost predicate PrioritiesPositive()
      reads this
    {
      forall i :: 0 <= i < |rules| ==> rules[i].priority >= 1
    }

    /** `listEnvelopes({ month })`: without a month, the whole table;
        with one, exactly its rows of that month, in table order. */
    function ListEnvelopes(month: Option<string>): (r: seq<Envelope>)
      ensures !MonthGiven(month) ==> r == envelopes
      ensures MonthGiven(month) ==>
        && IsSubsequence(r, envelopes)
        && (forall i :: 0 <= i < |r| ==> r[i].month == month.value)
        && (forall e :: multiset(r)[e] == if e.month == month.value then multiset(envelopes)[e] else 0)
    {
      if MonthGiven(month) then FilterByMonth(envelopes, month.value) else envelopes
    }

    /** `createRule`: builds the rule, appends it, and returns it. */
    method CreateRule(priority: int, tests: Document, actions: Document,
                      isActive: Option<bool>, now: nat) returns (rule: Rule)
      modifies this
      ensures rule == NewRule(priority, tests, actions, isActive, now)
      ensures rules == old(rules) + [rule]
      ensures old(PrioritiesPositive()) && priority >= 1 ==> PrioritiesPositive()
    {
      rule := NewRule(priority, tests, actions, isActive, now);
      rules := rules + [rule];
    }
  }

  /** With the seeded table, September 2025 lists the single food row and
      any other month lists nothing. */
  lemma SeededListing(s: Service, m: string)
    requires s.envelopes == SeedEnvelopes()
    ensures s.ListEnvelopes(Some("2025-09")) == [FoodSeptember]
    ensures m != "" && m != "2025-09" ==> s.ListEnvelopes(Some(m)) == []
  {
  }
}
