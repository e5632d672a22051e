/** `mxsniff` (mxsniffer/__init__.py:51-85): resolve the MX records of the
    extracted domain, normalise and sort them, and collect the providers the
    reverse index knows, first-seen order, without repeats.

    The DNS query is a parameter `resolve` returning an `Answer`; the two
    parsers of `get_domain` are parameters as in module Extract. */
module Sniff {
  import opened Text
  import opened Order
  import Extract
  import Registry

  /** What `dns.resolver.query(domain, 'MX')` produces: the records as
      (preference, exchange name as text with its final dot), one of the two
      exceptions the source treats as "nothing there", or any other
      `DNSException` with its class name and message. */
  datatype Answer =
    | Records(records: seq<(nat, string)>)
    | NoAnswer
    | NXDOMAIN
    | Failure(className: string, message: string)

  /** The outcome of `mxsniff`: the provider list it returns, or the
      `MXLookupException` it raises with its message. */
  datatype Outcome = Found(providers: seq<string>) | LookupError(message: string)

  /** `rdata.exchange.to_text(omit_final_dot=True)`: one trailing dot goes,
      except that the root name keeps its text ".". */
  function OmitFinalDot(name: string): string
  {
    if name != "." && name != [] && name[|name| - 1] == '.' then name[..|name| - 1] else name
  }

  /** `rdata.exchange.to_text(omit_final_dot=True).lower()`. */
  function Normalise(name: string): (n: string)
    ensures IsLowered(n)
    ensures n == Lower(name) || n + "." == Lower(name)
    ensures name != "." && name != [] && name[|name| - 1] == '.' ==> n + "." == Lower(name)
    ensures name == "." ==> n == "."
  {
    var r := Lower(OmitFinalDot(name));
    if name != "." && name != [] && name[|name| - 1] == '.' then
      assert name == OmitFinalDot(name) + ".";
      r
    else r
  }

  /** One element of the list comprehension of line 73. */
  function NormaliseRecord(rec: (nat, string)): Record
  {
    (rec.0, Normalise(rec.1))
  }

  /** The list comprehension of line 73, before sorting. */
  function NormaliseRecords(records: seq<(nat, string)>): seq<Record>
  {
    MapSeq(NormaliseRecord, records)
  }

  /** `answers`: the normalised records, sorted as tuples. */
  function PrepareAnswers(records: seq<(nat, string)>): (answers: seq<Record>)
    ensures IsSorted(answers)
    ensures multiset(answers) == multiset(NormaliseRecords(records))
  {
    Sort(NormaliseRecords(records))
  }

  /** The record's exchange is in the reverse index and names `provider`. */
  predicate MapsTo(index: map<string, string>, rec: Record, provider: string)
  {
    rec.1 in index && index[rec.1] == provider
  }

  predicate NoDuplicates(s: seq<string>)
  {
    forall i, j :: 0 <= i < j < |s| ==> s[i] != s[j]
  }

  /** `result` after the loop of lines 75-79 has walked all of `answers`. */
  function Matched(answers: seq<Record>, index: map<string, string>): seq<string>
  {
    if answers == [] then []
    else
      var prev := Matched(answers[..|answers| - 1], index);
      var exchange := answers[|answers| - 1].1;
      if exchange in index && index[exchange] !in prev then prev + [index[exchange]] else prev
  }

  /** The matching loop, appending to `result` in place. */
  method MatchProviders(answers: seq<Record>, index: map<string, string>) returns (result: seq<string>)
    ensures result == Matched(answers, index)
  {
    result := [];
    var i := 0;
    while i < |answers|
      invariant 0 <= i <= |answers|
      invariant result == Matched(answers[..i], index)
    {
      assert answers[..i + 1][..i] == answers[..i];
      var (preference, exchange) := answers[i];
      if exchange in index {
        var provider := index[exchange];
        if provider !in result {
          result := result + [provider];
        }
      }
      i := i + 1;
    }
    assert answers[..i] == answers;
  }

  /** No provider is listed twice. */
  lemma {:induction false} MatchedNoDuplicates(answers: seq<Record>, index: map<string, string>)
    ensures NoDuplicates(Matched(answers, index))
  {
    if answers != [] {
      MatchedNoDuplicates(answers[..|answers| - 1], index);
    }
  }

  /** Every listed provider is a value of the reverse index. */
  lemma {:induction false} MatchedFromIndex(answers: seq<Record>, index: map<string, string>)
    ensures forall p :: p in Matched(answers, index) ==> p in index.Values
  {
    if answers != [] {
      MatchedFromIndex(answers[..|answers| - 1], index);
    }
  }

  /** A provider is listed exactly when some record's exchange maps to it. */
  lemma {:induction false} MatchedComplete(answers: seq<Record>, index: map<string, string>, provider: string)
    ensures provider in Matched(answers, index)
            <==> exists m :: 0 <= m < |answers| && MapsTo(index, answers[m], provider)
  {
    if answers != [] {
      var n := |answers| - 1;
      var init := answers[..n];
      MatchedComplete(init, index, provider);
      if exists m :: 0 <= m < |init| && MapsTo(index, init[m], provider) {
        var m :| 0 <= m < |init| && MapsTo(index, init[m], provider);
        assert answers[m] == init[m];
      }
      if exists m :: 0 <= m < |answers| && MapsTo(index, answers[m], provider) {
        var m :| 0 <= m < |answers| && MapsTo(index, answers[m], provider);
        if m < n {
          assert init[m] == answers[m];
        }
      }
    }
  }

  /** Some record matching `p` comes before every record matching `q`. */
  ghost predicate FirstMatchBefore(answers: seq<Record>, index: map<string, string>, p: string, q: string)
  {
    exists m :: 0 <= m < |answers| && MapsTo(index, answers[m], p)
                && forall k :: 0 <= k <= m ==> !MapsTo(index, answers[k], q)
  }

  /** The providers are listed in the order of their first matching record. */
  lemma {:induction false} MatchedOrder(answers: seq<Record>, index: map<string, string>, a: nat, b: nat)
    requires a < b < |Matched(answers, index)|
    ensures FirstMatchBefore(answers, index, Matched(answers, index)[a], Matched(answers, index)[b])
  {
    var r := Matched(answers, index);
    var n := |answers| - 1;
    var init := answers[..n];
    var prev := Matched(init, index);
    if b < |prev| {
      assert r[a] == prev[a] && r[b] == prev[b];
      MatchedOrder(init, index, a, b);
      var m :| 0 <= m < |init| && MapsTo(index, init[m], prev[a])
               && forall k :: 0 <= k <= m ==> !MapsTo(index, init[k], prev[b]);
      assert answers[m] == init[m];
      forall k | 0 <= k <= m ensures !MapsTo(index, answers[k], r[b]) {
        assert answers[k] == init[k];
      }
    } else {
      assert r[a] == prev[a] && prev[a] in prev;
      MatchedComplete(init, index, r[a]);
      MatchedComplete(init, index, r[b]);
      var m :| 0 <= m < |init| && MapsTo(index, init[m], r[a]);
      assert answers[m] == init[m];
      forall k | 0 <= k <= m ensures !MapsTo(index, answers[k], r[b]) {
        assert answers[k] == init[k];
      }
    }
  }

  /** The first listed provider is the one of the first record (in sorted
      order) whose exchange the reverse index knows. */
  lemma MatchedHead(answers: seq<Record>, index: map<string, string>, m: nat)
    requires m < |answers| && answers[m].1 in index
    requires forall k :: 0 <= k < m ==> answers[k].1 !in index
    ensures Matched(answers, index) != []
    ensures Matched(answers, index)[0] == index[answers[m].1]
  {
    var r := Matched(answers, index);
    var p := index[answers[m].1];
    MatchedComplete(answers, index, p);
    var b :| 0 <= b < |r| && r[b] == p;
    if b != 0 {
      MatchedOrder(answers, index, 0, b);
      assert false;
    }
  }

  /** Nothing is listed exactly when no exchange is in the reverse index. */
  lemma MatchedEmpty(answers: seq<Record>, index: map<string, string>)
    ensures Matched(answers, index) == [] <==> forall k :: 0 <= k < |answers| ==> answers[k].1 !in index
  {
    if exists k :: 0 <= k < |answers| && answers[k].1 in index {
      var k :| 0 <= k < |answers| && answers[k].1 in index;
      MatchedComplete(answers, index, index[answers[k].1]);
    }
    if Matched(answers, index) != [] {
      MatchedComplete(answers, index, Matched(answers, index)[0]);
    }
  }

  /** With the index built from the provider table, each listed provider is
      the name of the last table entry that lists some answer's exchange,
      and that exchange is lowercase. */
  lemma MatchedFromTable(answers: seq<Record>, table: seq<Registry.Provider>, provider: string)
    requires provider in Matched(answers, Registry.ReverseIndex(table))
    ensures exists m, i :: 0 <= m < |answers| && 0 <= i < |table|
                           && Registry.Lists(table[i], answers[m].1) && table[i].0 == provider
                           && IsLowered(answers[m].1)
                           && forall k :: i < k < |table| ==> !Registry.Lists(table[k], answers[m].1)
  {
    var index := Registry.ReverseIndex(table);
    MatchedComplete(answers, index, provider);
    var m :| 0 <= m < |answers| && MapsTo(index, answers[m], provider);
    var key := answers[m].1;
    Registry.ReverseIndexLastWins(table, key);
    Registry.ReverseIndexKeysLowered(table, key);
    var i :| 0 <= i < |table| && Registry.Lists(table[i], key) && index[key] == table[i].0
             && forall k :: i < k < |table| ==> !Registry.Lists(table[k], key);
  }

  /** However many of its hostnames match, a single provider is listed once. */
  lemma {:induction false} SingleProvider(answers: seq<Record>, index: map<string, string>, provider: string)
    requires forall k :: 0 <= k < |answers| && answers[k].1 in index ==> index[answers[k].1] == provider
    ensures Matched(answers, index)
            == if exists m :: 0 <= m < |answers| && answers[m].1 in index then [provider] else []
  {
    if answers != [] {
      var n := |answers| - 1;
      var init := answers[..n];
      assert forall k :: 0 <= k < n ==> init[k] == answers[k];
      SingleProvider(init, index, provider);
      if exists m :: 0 <= m < n && init[m].1 in index {
        var m :| 0 <= m < n && init[m].1 in index;
        assert answers[m].1 in index;
      }
      if exists m :: 0 <= m < |answers| && answers[m].1 in index {
        var m :| 0 <= m < |answers| && answers[m].1 in index;
        if m < n {
          assert init[m].1 in index;
        }
      }
    }
  }

  /** `f` applied to every element of `s`. */
  function MapSeq<A, B>(f: A -> B, s: seq<A>): seq<B>
  {
    seq(|s|, i requires 0 <= i < |s| => f(s[i]))
  }

  lemma MultisetRemoveAt<T>(a: seq<T>, b: seq<T>, j: nat)
    requires a != [] && multiset(a) == multiset(b) && j < |b| && b[j] == a[0]
    ensures multiset(a[1..]) == multiset(b[..j] + b[j + 1..])
  {
    assert a == [a[0]] + a[1..];
    assert b == b[..j] + [b[j]] + b[j + 1..];
    assert multiset(a[1..]) == multiset(a) - multiset{a[0]};
    assert multiset(b[..j] + b[j + 1..]) == multiset(b) - multiset{b[j]};
  }

  /** Mapping over a permutation gives a permutation. */
  lemma {:induction false} MapPermutation<A, B>(f: A -> B, a: seq<A>, b: seq<A>)
    requires multiset(a) == multiset(b)
    ensures multiset(MapSeq(f, a)) == multiset(MapSeq(f, b))
  {
    if a == [] {
      assert |b| == |multiset(b)| == 0;
    } else {
      assert a[0] in multiset(b);
      var j :| 0 <= j < |b| && b[j] == a[0];
      var b1, b2 := b[..j], b[j + 1..];
      MultisetRemoveAt(a, b, j);
      MapPermutation(f, a[1..], b1 + b2);
      assert MapSeq(f, a) == [f(a[0])] + MapSeq(f, a[1..]);
      assert MapSeq(f, b) == MapSeq(f, b1) + [f(a[0])] + MapSeq(f, b2);
      assert MapSeq(f, b1 + b2) == MapSeq(f, b1) + MapSeq(f, b2);
    }
  }

  /** The order in which the resolver returns the records does not matter:
      `sorted` orders whole tuples, so equally preferred records are ordered
      by exchange name rather than kept in the resolver's order. */
  lemma AnswerOrderIrrelevant(a: seq<(nat, string)>, b: seq<(nat, string)>)
    requires multiset(a) == multiset(b)
    ensures PrepareAnswers(a) == PrepareAnswers(b)
  {
    MapPermutation(NormaliseRecord, a, b);
    SortedUnique(PrepareAnswers(a), PrepareAnswers(b));
  }

  /** `mxsniff`: extract the domain, query it, and match the answer. */
  method MxSniff(input: string, parseAddr: string -> string, netloc: string -> string,
                 resolve: string -> Answer, index: map<string, string>)
    returns (outcome: Outcome)
    ensures var answer := resolve(Extract.GetDomain(input, parseAddr, netloc));
            && (answer.NoAnswer? || answer.NXDOMAIN? ==> outcome == Found([]))
            && (answer.Failure? ==> outcome == LookupError(answer.className + " " + answer.message))
            && (answer.Records? ==> outcome == Found(Matched(PrepareAnswers(answer.records), index)))
    ensures outcome.Found? ==> NoDuplicates(outcome.providers)
                               && forall p :: p in outcome.providers ==> p in index.Values
  {
    var domain := Extract.GetDomain(input, parseAddr, netloc);
    var answer := resolve(domain);
    match answer {
      case Records(records) =>
        var answers := PrepareAnswers(records);
        var result := MatchProviders(answers, index);
        MatchedNoDuplicates(answers, index);
        MatchedFromIndex(answers, index);
        outcome := Found(result);
      case NoAnswer =>
        outcome := Found([]);
      case NXDOMAIN =>
        outcome := Found([]);
      case Failure(className, message) =>
        outcome := LookupError(className + " " + message);
    }
  }
}
