/**
 Bringing hot-plugged CPUs online: the sysfs directory is listed again and again, and CPUs that are
 offline are switched on until the requested number is reached.
 */
module OnlineCpus {
  import opened Wrappers

  /** A directory entry: its name, what its `online` file reads as, if it can be read, and whether it
      can be written. */
  datatype Entry = Entry(name: string, online: Option<string>, writable: bool)

  /** A listing as it was read: it may be missing altogether, or break off at an entry. */
  type Listing = Option<seq<Option<Entry>>>

  const MAX_RETRIES: nat := 100

  predicate IsDigit(c: char) {
    '0' <= c <= '9'
  }

  /** The name contains the prefix followed by a digit. */
  predicate Matches(name: string, prefix: string) {
    name != "" && (StartsWithNumbered(name, prefix) || Matches(name[1..], prefix))
  }

  predicate StartsWithNumbered(name: string, prefix: string) {
    |prefix| < |name| && prefix <= name && IsDigit(name[|prefix|])
  }

  /** The prefix stands at position `i` of the name, followed by a digit. */
  predicate NumberedAt(name: string, prefix: string, i: nat) {
    && i + |prefix| < |name| && '0' <= name[i + |prefix|] <= '9'
    && forall j :: 0 <= j < |prefix| ==> prefix[j] == name[i + j]
  }

  lemma NumberedLater(name: string, prefix: string, i: nat)
    requires name != ""
    ensures NumberedAt(name, prefix, i + 1) <==> NumberedAt(name[1..], prefix, i)
  {
    var rest := name[1..];
    assert forall k :: 0 <= k < |rest| ==> rest[k] == name[k + 1];
    if NumberedAt(name, prefix, i + 1) {
      forall j | 0 <= j < |prefix| ensures prefix[j] == rest[i + j] {
        assert prefix[j] == name[i + 1 + j];
      }
    }
    if NumberedAt(rest, prefix, i) {
      forall j | 0 <= j < |prefix| ensures prefix[j] == name[i + 1 + j] {
        assert prefix[j] == rest[i + j];
      }
    }
  }

  lemma NumberedFirst(name: string, prefix: string)
    ensures NumberedAt(name, prefix, 0) <==> StartsWithNumbered(name, prefix)
  {
    if NumberedAt(name, prefix, 0) {
      forall j | 0 <= j < |prefix| ensures prefix[j] == name[j] {
        assert prefix[j] == name[0 + j];
      }
    }
  }

  /** A name matches with the prefix and a digit anywhere in it. */
  lemma {:induction false} MatchesExactly(name: string, prefix: string)
    ensures Matches(name, prefix) <==> exists i :: 0 <= i < |name| && NumberedAt(name, prefix, i)
  {
    if name == "" {
    } else {
      var rest := name[1..];
      MatchesExactly(rest, prefix);
      NumberedFirst(name, prefix);
      if i :| 0 <= i < |rest| && NumberedAt(rest, prefix, i) {
        NumberedLater(name, prefix, i);
        assert NumberedAt(name, prefix, i + 1);
      }
      if i :| 0 <= i < |name| && NumberedAt(name, prefix, i) && i > 0 {
        NumberedLater(name, prefix, i - 1);
      }
    }
  }

  /** The entry is offline and can be switched on. */
  predicate Switchable(e: Entry, prefix: string) {
    Matches(e.name, prefix) && e.online.Some? && '0' in e.online.value && e.writable
  }

  // ---------------------------------------------------------------- one listing

  /** The entries that can be switched on, in order, up to where the listing breaks off. */
  function Candidates(entries: seq<Option<Entry>>, prefix: string): (r: seq<nat>)
    ensures forall k :: 0 <= k < |r| ==> r[k] < |entries|
  {
    if entries == [] then []
    else
      var before := Candidates(entries[..|entries| - 1], prefix);
      var last := entries[|entries| - 1];
      if !Broken(entries[..|entries| - 1]) && last.Some? && Switchable(last.value, prefix) then before + [|entries| - 1]
      else before
  }

  predicate Broken(entries: seq<Option<Entry>>) {
    None in entries
  }

  /** The entries that are switched on: the candidates, or the first `num` of them if `num` is
      positive. */
  function Switched(entries: seq<Option<Entry>>, prefix: string, num: int): seq<nat> {
    var all := Candidates(entries, prefix);
    if 0 < num < |all| then all[..num] else all
  }

  /** Whether the listing is read to a usable end: unbroken, or enough found before it breaks off. */
  predicate Completes(entries: seq<Option<Entry>>, prefix: string, num: int) {
    !Broken(entries) || 0 < num <= |Candidates(entries, prefix)|
  }

  lemma {:induction false} CandidatesPrefix(entries: seq<Option<Entry>>, prefix: string, n: nat)
    requires n <= |entries|
    ensures Candidates(entries[..n], prefix) <= Candidates(entries, prefix)
    ensures Broken(entries[..n]) ==> Candidates(entries[..n], prefix) == Candidates(entries, prefix)
  {
    if n == |entries| {
      assert entries[..n] == entries;
    } else {
      CandidatesPrefix(entries[..|entries| - 1], prefix, n);
      assert entries[..|entries| - 1][..n] == entries[..n];
    }
  }

  /** The candidates are exactly the entries that can be switched on and that are read, each once. */
  lemma {:induction false} CandidatesExactly(entries: seq<Option<Entry>>, prefix: string)
    ensures forall k :: 0 <= k < |entries| ==>
              (k in Candidates(entries, prefix) <==>
               !Broken(entries[..k]) && entries[k].Some? && Matches(entries[k].value.name, prefix) &&
               entries[k].value.online.Some? && '0' in entries[k].value.online.value && entries[k].value.writable)
    ensures forall i, j :: 0 <= i < j < |Candidates(entries, prefix)| ==>
              Candidates(entries, prefix)[i] < Candidates(entries, prefix)[j]
  {
    if entries == [] {
    } else {
      var before := entries[..|entries| - 1];
      CandidatesExactly(before, prefix);
      forall k | 0 <= k < |before| ensures entries[..k] == before[..k] && entries[k] == before[k] {
      }
    }
  }

  /** What one more entry of an unbroken listing adds. */
  lemma OneEntry(entries: seq<Option<Entry>>, prefix: string, n: nat)
    requires n < |entries| && !Broken(entries[..n])
    ensures entries[n].None? ==> Broken(entries) && Candidates(entries[..n], prefix) == Candidates(entries, prefix)
    ensures entries[n].Some? ==>
              && !Broken(entries[..n + 1]) && Candidates(entries[..n + 1], prefix) <= Candidates(entries, prefix)
              && Candidates(entries[..n + 1], prefix) ==
                 Candidates(entries[..n], prefix) + (if Switchable(entries[n].value, prefix) then [n] else [])
  {
    var more := entries[..n + 1];
    assert more[..n] == entries[..n] && more == entries[..n] + [entries[n]];
    CandidatesPrefix(entries, prefix, n + 1);
    if entries[n].None? {
      assert entries[n] in entries && more[n] == None;
    }
  }

  /** Switches on up to `num` entries, all of them if `num` is not positive. The count is reported
      only in the first case. */
  method OnlineResources(listing: Listing, prefix: string, num: int) returns (r: Option<int>, on: seq<nat>)
    ensures listing.None? ==> r.None? && on == []
    ensures listing.Some? ==> on == Switched(listing.value, prefix, num) && on <= Candidates(listing.value, prefix)
    ensures listing.Some? ==> (r.Some? <==> Completes(listing.value, prefix, num))
    ensures r.Some? ==> r.value == if num > 0 then |on| else 0
  {
    on := [];
    if listing.None? {
      return None, on;
    }
    var entries := listing.value;
    var count := 0;
    for n := 0 to |entries|
      invariant on == Candidates(entries[..n], prefix) && count == |on|
      invariant !Broken(entries[..n])
      invariant num > 0 ==> count < num
    {
      var e := entries[n];
      OneEntry(entries, prefix, n);
      if e.None? {
        return None, on;
      }
      if Matches(e.value.name, prefix) {
        if e.value.online.None? {
          continue;
        }
        if '0' in e.value.online.value {
          if !e.value.writable {
            continue;
          }
          on := on + [n];
          count := count + 1;
          if num > 0 && count == num {
            return Some(count), on;
          }
        }
      }
    }
    assert entries[..|entries|] == entries;
    r := Some(if num > 0 then count else 0);
  }

  // ---------------------------------------------------------------- all retries

  /** How many a round switches on. */
  function Found(listing: Listing, num: int): nat {
    if listing.None? then 0 else |Switched(listing.value, "cpu", num)|
  }

  predicate Usable(listing: Listing, num: int) {
    listing.Some? && Completes(listing.value, "cpu", num)
  }

  /** The rounds meet the request: each can be used, and they find as many as are wanted. */
  predicate Meets(rounds: seq<Listing>, wanted: int) {
    rounds != [] && Usable(rounds[0], wanted) &&
    (Found(rounds[0], wanted) == wanted || Meets(rounds[1..], wanted - Found(rounds[0], wanted)))
  }

  lemma FoundBound(listing: Listing, num: int)
    ensures num > 0 ==> Found(listing, num) <= num
  {
  }

  /** How many CPUs a listing offers. */
  function Offered(listing: Listing): nat {
    if listing.None? then 0 else |Candidates(listing.value, "cpu")|
  }

  /** How many the first `k` listings offer together. */
  function OfferedBy(rounds: seq<Listing>, k: nat): nat
    requires k <= |rounds|
  {
    if k == 0 then 0 else Offered(rounds[0]) + OfferedBy(rounds[1..], k - 1)
  }

  /** The listing is there and does not break off. */
  predicate Intact(listing: Listing) {
    listing.Some? && !Broken(listing.value)
  }

  /** Round `k` is the first by which the listings offer as many as are wanted; the ones before it are
      intact, and it is there itself. */
  predicate MetAt(rounds: seq<Listing>, wanted: int, k: nat)
    requires k < |rounds|
  {
    && (forall j :: 0 <= j < k ==> Intact(rounds[j])) && rounds[k].Some?
    && OfferedBy(rounds, k) < wanted <= OfferedBy(rounds, k + 1)
  }

  lemma MetLater(rounds: seq<Listing>, wanted: int, k: nat)
    requires 0 < k < |rounds|
    ensures MetAt(rounds, wanted, k) <==> Intact(rounds[0]) && MetAt(rounds[1..], wanted - Offered(rounds[0]), k - 1)
  {
    var rest := rounds[1..];
    assert forall j :: 0 < j < |rounds| ==> rounds[j] == rest[j - 1];
    assert forall j :: 0 <= j < |rest| ==> rest[j] == rounds[j + 1];
  }

  lemma MetFirst(rounds: seq<Listing>, wanted: int)
    requires rounds != [] && wanted > 0
    ensures MetAt(rounds, wanted, 0) <==> rounds[0].Some? && wanted <= Offered(rounds[0])
  {
    assert OfferedBy(rounds, 1) == Offered(rounds[0]) + OfferedBy(rounds[1..], 0);
  }

  /** The rounds meet a request exactly when one of them is the first by which enough is offered. */
  lemma {:induction false} MeetsExactly(rounds: seq<Listing>, wanted: int)
    requires wanted > 0
    ensures Meets(rounds, wanted) <==> exists k :: 0 <= k < |rounds| && MetAt(rounds, wanted, k)
  {
    if rounds == [] {
    } else {
      var rest, left := rounds[1..], wanted - Offered(rounds[0]);
      MetFirst(rounds, wanted);
      if left > 0 {
        MeetsExactly(rest, left);
        if k :| 0 <= k < |rest| && MetAt(rest, left, k) && Intact(rounds[0]) {
          MetLater(rounds, wanted, k + 1);
          assert MetAt(rounds, wanted, k + 1);
        }
        if k :| 0 <= k < |rounds| && MetAt(rounds, wanted, k) {
          MetLater(rounds, wanted, k);
        }
      } else {
        NotMetLater(rounds, wanted);
      }
    }
  }

  /** Where the first listing offers enough, no later round is the first to. */
  lemma NotMetLater(rounds: seq<Listing>, wanted: int)
    requires rounds != [] && wanted <= Offered(rounds[0])
    ensures forall k :: 0 < k < |rounds| ==> !MetAt(rounds, wanted, k)
  {
    forall k | 0 < k < |rounds| ensures !MetAt(rounds, wanted, k) {
      assert OfferedBy(rounds, k) == Offered(rounds[0]) + OfferedBy(rounds[1..], k - 1);
    }
  }

  /** Retries until the number is reached. For a positive number, every call asks for a positive number,
      so none of them is unlimited; no more than the number is switched on over all calls, whatever
      single reads or writes fail; and the call succeeds, with that number, exactly when some round is
      the first by which the listings offer as many, in which case exactly that many were switched on. */
  method OnlineAll(rounds: seq<Listing>, num: int) returns (r: Option<int>, asked: seq<int>, on: nat)
    requires |rounds| == MAX_RETRIES
    ensures num > 0 ==> forall k :: 0 <= k < |asked| ==> asked[k] > 0
    ensures num > 0 ==> on <= num
    ensures num > 0 ==> (r.Some? <==> exists k :: 0 <= k < |rounds| && MetAt(rounds, num, k))
    ensures r.Some? ==> r.value == num && (num > 0 ==> on == num)
    ensures num < 0 ==> r.None?
  {
    r, asked, on := OnlineRounds(rounds, num);
    if num > 0 {
      MeetsExactly(rounds, num);
    }
  }

  /** The loop of the retries. */
  method OnlineRounds(rounds: seq<Listing>, num: int) returns (r: Option<int>, asked: seq<int>, on: nat)
    requires |rounds| == MAX_RETRIES
    ensures num > 0 ==> AllPositive(asked) && on <= num
    ensures num > 0 ==> (r.Some? <==> Meets(rounds, num))
    ensures r.Some? ==> r.value == num && (num > 0 ==> on == num)
    ensures num < 0 ==> r.None?
  {
    var onlined := 0;
    asked, on := [], 0;
    assert rounds[0..] == rounds;
    for i := 0 to MAX_RETRIES
      invariant num > 0 ==> AllPositive(asked) && onlined == on < num
      invariant num > 0 ==> (Meets(rounds, num) <==> Meets(rounds[i..], num - onlined))
      invariant num < 0 ==> onlined == 0
    {
      FoundBound(rounds[i], num - onlined);
      assert rounds[i..][1..] == rounds[i + 1..] && rounds[i..][0] == rounds[i];
      asked := asked + [num - onlined];
      var count, switched := OnlineResources(rounds[i], "cpu", num - onlined);
      on := on + |switched|;
      if count.None? {
        return None, asked, on;
      }
      onlined := onlined + count.value;
      if onlined == num {
        return Some(num), asked, on;
      }
    }
    r := None;
  }

  predicate AllPositive(xs: seq<int>) {
    forall k :: 0 <= k < |xs| ==> xs[k] > 0
  }
}
