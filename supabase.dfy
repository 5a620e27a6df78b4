/**
 * src/supabase.js: the compare-then-write upsert of one listing and the
 * batch that tallies it, against an in-memory copy of the listings table.
 *
 * The table is keyed by `link_annuncio`, which the storage layer keeps
 * unique; the database assigns each inserted row the next serial id.
 * What the client library can report as an error is an input: each call
 * says whether its lookup or its write fails.
 */
module Supabase {
  import opened Values
  import opened Calendar
  import opened Utils

  /** A stored row: its id, the listing fields and `updated_at`, null until the first update. */
  datatype Row = Row(id: nat, listing: Listing, updatedAt: Option<Stamp>)

  /** The table: its rows and the next value of the id sequence. */
  datatype Table = Table(rows: seq<Row>, nextId: nat)

  /** Which database call of an upsert reports an error ("no rows" from the lookup is not one). */
  datatype Fault = NoFault | LookupError | WriteError

  datatype Action = Inserted | Updated | Skipped

  /** What `upsertListing` resolves to, or `Raised` when it rethrows. */
  datatype Outcome = Done(action: Action, id: nat) | Raised

  /** The outcome of one upsert with the table it leaves. */
  datatype Upserted = Upserted(outcome: Outcome, table: Table)

  /** The URL of a row. */
  function Url(r: Row): Option<string> {
    r.listing.link_annuncio
  }

  /**
   * What the storage layer keeps: ids are distinct and below the sequence,
   * and no two rows share a non-null URL.
   */
  predicate Valid(t: Table) {
    && (forall i :: 0 <= i < |t.rows| ==> t.rows[i].id < t.nextId)
    && (forall i, j :: 0 <= i < j < |t.rows| ==> t.rows[i].id != t.rows[j].id)
    && (forall i, j :: 0 <= i < j < |t.rows| && Url(t.rows[i]).Some? ==> Url(t.rows[i]) != Url(t.rows[j]))
  }

  /** Some row of the table has this non-null URL. */
  predicate Stored(t: Table, url: Option<string>) {
    url.Some? && exists k :: 0 <= k < |t.rows| && Url(t.rows[k]) == url
  }

  /**
   * The lookup `select … eq('link_annuncio', url).single()`: the position
   * of the row with that URL. A null URL equals nothing in SQL.
   */
  function Find(rows: seq<Row>, url: Option<string>): (k: Option<nat>)
    ensures k.Some? ==> url.Some? && k.value < |rows| && Url(rows[k.value]) == url
    ensures k.None? ==> url.None? || forall j :: 0 <= j < |rows| ==> Url(rows[j]) != url
  {
    if url.None? || rows == [] then None
    else if Url(rows[0]) == url then Some(0)
    else
      match Find(rows[1..], url)
      case None => None
      case Some(k) => Some(k + 1)
  }

  /** `hasChanges`: the price, the mileage or the likes differ (strict inequality). */
  predicate HasChanges(existing: Listing, listing: Listing) {
    existing.prezzo != listing.prezzo || existing.km != listing.km || existing.likes != listing.likes
  }

  /**
   * `upsertListing`: look the URL up; when a row has it, overwrite the row
   * with the listing and `updated_at = now` if any compared field differs
   * and skip it otherwise; when no row has it, insert the listing under
   * the next id. An error from the lookup or from the write needed is
   * rethrown, and a failed call leaves the table as it was.
   */
  function Upsert(t: Table, listing: Listing, fault: Fault, now: DateTime): (u: Upserted)
    ensures u.outcome.Raised? ==> u.table == t
    ensures fault == LookupError ==> u.outcome.Raised?
    ensures fault == NoFault ==> u.outcome.Done?
    ensures u.outcome.Done? && u.outcome.action == Skipped ==> u.table == t
  {
    if fault == LookupError then Upserted(Raised, t)
    else
      match Find(t.rows, listing.link_annuncio)
      case Some(k) =>
        var existing := t.rows[k];
        if HasChanges(existing.listing, listing) then
          if fault == WriteError then Upserted(Raised, t)
          else Upserted(Done(Updated, existing.id), t.(rows := t.rows[k := Row(existing.id, listing, Some(Iso(now)))]))
        else Upserted(Done(Skipped, existing.id), t)
      case None =>
        if fault == WriteError then Upserted(Raised, t)
        else Upserted(Done(Inserted, t.nextId), Table(t.rows + [Row(t.nextId, listing, None)], t.nextId + 1))
  }

  /** With no row for its URL, a listing is inserted as a new row under the next id. */
  lemma UpsertAbsent(t: Table, listing: Listing, fault: Fault, now: DateTime)
    requires !Stored(t, listing.link_annuncio)
    ensures var u := Upsert(t, listing, fault, now);
      && (fault == NoFault ==> u == Upserted(Done(Inserted, t.nextId),
                                             Table(t.rows + [Row(t.nextId, listing, None)], t.nextId + 1)))
      && (fault != NoFault ==> u == Upserted(Raised, t))
  {
  }

  /** In a valid table, the lookup finds the one row with the URL. */
  lemma FindStored(t: Table, url: Option<string>, k: nat)
    requires Valid(t) && k < |t.rows| && url.Some? && Url(t.rows[k]) == url
    ensures Find(t.rows, url) == Some(k)
  {
  }

  /**
   * With a row for its URL, a listing whose price, mileage or likes differ
   * overwrites that row, keeping its id and setting `updated_at`; one that
   * agrees on those three is skipped, whatever its other fields say.
   */
  lemma UpsertPresent(t: Table, listing: Listing, fault: Fault, now: DateTime, k: nat)
    requires Valid(t) && k < |t.rows| && listing.link_annuncio.Some? && Url(t.rows[k]) == listing.link_annuncio
    requires fault != LookupError
    ensures var u := Upsert(t, listing, fault, now);
            var existing := t.rows[k];
      && (HasChanges(existing.listing, listing) && fault == NoFault ==>
            u == Upserted(Done(Updated, existing.id),
                          t.(rows := t.rows[k := Row(existing.id, listing, Some(Iso(now)))])))
      && (HasChanges(existing.listing, listing) && fault == WriteError ==> u == Upserted(Raised, t))
      && (!HasChanges(existing.listing, listing) ==> u == Upserted(Done(Skipped, existing.id), t))
  {
    FindStored(t, listing.link_annuncio, k);
  }

  /** An upsert keeps the table valid. */
  lemma UpsertKeepsValid(t: Table, listing: Listing, fault: Fault, now: DateTime)
    requires Valid(t)
    ensures Valid(Upsert(t, listing, fault, now).table)
  {
    var u := Upsert(t, listing, fault, now);
    if fault != LookupError {
      match Find(t.rows, listing.link_annuncio)
      case Some(k) =>
        if u.table != t {
          var rows := u.table.rows;
          assert rows == t.rows[k := Row(t.rows[k].id, listing, Some(Iso(now)))];
          assert forall i :: 0 <= i < |rows| ==> rows[i].id == t.rows[i].id && Url(rows[i]) == Url(t.rows[i]);
        }
      case None =>
    }
  }

  /**
   * No upsert deletes or moves a row: the old rows keep their places and
   * ids, and every row whose URL differs from the listing's is untouched.
   */
  lemma UpsertKeepsOtherRows(t: Table, listing: Listing, fault: Fault, now: DateTime)
    ensures var u := Upsert(t, listing, fault, now);
      && |u.table.rows| >= |t.rows|
      && (forall i :: 0 <= i < |t.rows| ==> u.table.rows[i].id == t.rows[i].id)
      && (forall i :: 0 <= i < |t.rows| && Url(t.rows[i]) != listing.link_annuncio ==> u.table.rows[i] == t.rows[i])
  {
  }

  /**
   * Upserting the same listing twice in a row: the first call inserts or
   * updates it (or finds it unchanged), the second finds it unchanged.
   */
  lemma UpsertTwice(t: Table, listing: Listing, now: DateTime, later: DateTime, fault: Fault)
    requires Valid(t) && listing.link_annuncio.Some? && fault != LookupError
    ensures var u := Upsert(t, listing, NoFault, now);
      && u.outcome.Done?
      && Upsert(u.table, listing, fault, later) == Upserted(Done(Skipped, u.outcome.id), u.table)
  {
    var u := Upsert(t, listing, NoFault, now);
    UpsertKeepsValid(t, listing, NoFault, now);
    match Find(t.rows, listing.link_annuncio)
    case Some(k) =>
      UpsertPresent(u.table, listing, fault, later, k);
    case None =>
      UpsertPresent(u.table, listing, fault, later, |t.rows|);
  }

  // ---------------------------------------------------------------------
  // upsertListingsBatch
  // ---------------------------------------------------------------------

  /** The `results` object of a batch. */
  datatype Tally = Tally(inserted: nat, updated: nat, skipped: nat, errors: nat)

  function Total(c: Tally): nat {
    c.inserted + c.updated + c.skipped + c.errors
  }

  /** `results[result.action]++`, or `results.errors++` when the upsert threw. */
  function Count(c: Tally, o: Outcome): (d: Tally)
    ensures Total(d) == Total(c) + 1
    ensures o.Raised? <==> d.errors == c.errors + 1
    ensures o.Raised? ==> d == c.(errors := c.errors + 1)
    ensures o.Done? && o.action == Inserted ==> d == c.(inserted := c.inserted + 1)
    ensures o.Done? && o.action == Updated ==> d == c.(updated := c.updated + 1)
    ensures o.Done? && o.action == Skipped ==> d == c.(skipped := c.skipped + 1)
  {
    match o
    case Raised => c.(errors := c.errors + 1)
    case Done(Inserted, _) => c.(inserted := c.inserted + 1)
    case Done(Updated, _) => c.(updated := c.updated + 1)
    case Done(Skipped, _) => c.(skipped := c.skipped + 1)
  }

  /** The tally of a batch with the table it leaves. */
  datatype Batch = Batch(tally: Tally, table: Table)

  /** One upsert call: the table, the listing and the fault it meets. */
  type Call = (Table, Listing, Fault) -> Upserted

  /** `upsertListing` with the clock reading `now`. */
  function UpsertAt(now: DateTime): (call: Call)
    ensures forall t, listing, fault :: call(t, listing, fault) == Upsert(t, listing, fault, now)
  {
    (t: Table, listing: Listing, fault: Fault) => Upsert(t, listing, fault, now)
  }

  /**
   * The listings upserted one after the other by `call`, the `i`-th one
   * meeting the fault `faults(i)`; an upsert that throws is counted and
   * the loop goes on.
   */
  function UpsertBatch(t: Table, listings: seq<Listing>, faults: nat -> Fault, call: Call): Batch
    decreases |listings|
  {
    if listings == [] then Batch(Tally(0, 0, 0, 0), t)
    else
      var n := |listings| - 1;
      var b := UpsertBatch(t, listings[..n], faults, call);
      var u := call(b.table, listings[n], faults(n));
      Batch(Count(b.tally, u.outcome), u.table)
  }

  /** Every listing is counted exactly once. */
  lemma {:induction false} BatchTallyTotal(t: Table, listings: seq<Listing>, faults: nat -> Fault, call: Call)
    ensures Total(UpsertBatch(t, listings, faults, call).tally) == |listings|
    decreases |listings|
  {
    if listings != [] {
      BatchTallyTotal(t, listings[..|listings| - 1], faults, call);
    }
  }

  /** A batch keeps the table valid. */
  lemma {:induction false} BatchKeepsValid(t: Table, listings: seq<Listing>, faults: nat -> Fault, now: DateTime)
    requires Valid(t)
    ensures Valid(UpsertBatch(t, listings, faults, UpsertAt(now)).table)
    decreases |listings|
  {
    if listings != [] {
      var n := |listings| - 1;
      BatchKeepsValid(t, listings[..n], faults, now);
      UpsertKeepsValid(UpsertBatch(t, listings[..n], faults, UpsertAt(now)).table, listings[n], faults(n), now);
    }
  }

  /** The number of the first `n` listings whose database calls report an error. */
  function Faulty(faults: nat -> Fault, n: nat): (m: nat)
    ensures m <= n
  {
    if n == 0 then 0 else Faulty(faults, n - 1) + (if faults(n - 1) != NoFault then 1 else 0)
  }

  /** Errors come only from failing calls: with none, every listing is inserted, updated or skipped. */
  lemma {:induction false} BatchErrorsFromFaults(t: Table, listings: seq<Listing>, faults: nat -> Fault, now: DateTime)
    ensures UpsertBatch(t, listings, faults, UpsertAt(now)).tally.errors <= Faulty(faults, |listings|)
    decreases |listings|
  {
    if listings != [] {
      BatchErrorsFromFaults(t, listings[..|listings| - 1], faults, now);
    }
  }

  /** Adds two tallies field by field. */
  function Plus(a: Tally, b: Tally): (c: Tally)
    ensures Total(c) == Total(a) + Total(b)
  {
    Tally(a.inserted + b.inserted, a.updated + b.updated, a.skipped + b.skipped, a.errors + b.errors)
  }

  /**
   * A batch runs its listings one by one with no cross-talk: the second
   * part of a batch (meeting the faults `later`) runs on the table the
   * first part left, whatever failed in it, and the tallies add up.
   */
  lemma {:induction false} BatchAppend(t: Table, first: seq<Listing>, rest: seq<Listing>,
                                       faults: nat -> Fault, later: nat -> Fault, call: Call)
    requires forall i: nat :: later(i) == faults(|first| + i)
    ensures var a := UpsertBatch(t, first, faults, call);
            var b := UpsertBatch(a.table, rest, later, call);
      UpsertBatch(t, first + rest, faults, call) == Batch(Plus(a.tally, b.tally), b.table)
    decreases |rest|
  {
    if rest == [] {
      assert first + rest == first;
    } else {
      var n := |rest| - 1;
      BatchAppend(t, first, rest[..n], faults, later, call);
      var a := UpsertBatch(t, first, faults, call);
      var b := UpsertBatch(a.table, rest[..n], later, call);
      var u := call(b.table, rest[n], later(n));
      SplitLast(first, rest);
      assert later(n) == faults(|first + rest[..n]|);
      BatchExtend(a.table, rest[..n], rest[n], rest, later, call, b, u);
      BatchExtend(t, first + rest[..n], rest[n], first + rest, faults, call, Batch(Plus(a.tally, b.tally), b.table), u);
      CountPlus(a.tally, b.tally, u.outcome);
    }
  }

  /** A batch with one more listing: the last one is upserted on the table the others left. */
  lemma BatchExtend(t: Table, listings: seq<Listing>, last: Listing, all: seq<Listing>,
                    faults: nat -> Fault, call: Call, b: Batch, u: Upserted)
    requires all == listings + [last] && b == UpsertBatch(t, listings, faults, call)
    requires u == call(b.table, last, faults(|listings|))
    ensures UpsertBatch(t, all, faults, call) == Batch(Count(b.tally, u.outcome), u.table)
  {
    assert all[..|listings|] == listings;
  }

  lemma SplitLast<T>(first: seq<T>, rest: seq<T>)
    requires rest != []
    ensures rest[..|rest| - 1] + [rest[|rest| - 1]] == rest
    ensures (first + rest[..|rest| - 1]) + [rest[|rest| - 1]] == first + rest
  {
    assert rest[..|rest| - 1] + [rest[|rest| - 1]] == rest;
  }

  lemma CountPlus(a: Tally, b: Tally, o: Outcome)
    ensures Count(Plus(a, b), o) == Plus(a, Count(b, o))
  {
    match o
    case Raised =>
    case Done(action, _) =>
      match action
      case Inserted =>
      case Updated =>
      case Skipped =>
  }

  // ---------------------------------------------------------------------
  // The service object
  // ---------------------------------------------------------------------

  /** `SupabaseService` with the client replaced by the table it reads and writes. */
  class ListingStore {
    var rows: seq<Row>
    var nextId: nat

    function State(): Table
      reads this
    {
      Table(rows, nextId)
    }

    /** An empty table whose id sequence starts at 1. */
    constructor ()
      ensures State() == Table([], 1) && Valid(State())
    {
      rows := [];
      nextId := 1;
    }

    /** `upsertListing`. */
    method UpsertListing(listing: Listing, fault: Fault, now: DateTime) returns (r: Outcome)
      modifies this
      ensures Upserted(r, State()) == Upsert(old(State()), listing, fault, now)
      ensures Valid(old(State())) ==> Valid(State())
    {
      if Valid(State()) {
        UpsertKeepsValid(State(), listing, fault, now);
      }
      if fault == LookupError {
        return Raised;
      }
      var found := Find(rows, listing.link_annuncio);
      if found.Some? {
        var existing := rows[found.value];
        if HasChanges(existing.listing, listing) {
          if fault == WriteError {
            return Raised;
          }
          rows := rows[found.value := Row(existing.id, listing, Some(Iso(now)))];
          return Done(Updated, existing.id);
        }
        return Done(Skipped, existing.id);
      }
      if fault == WriteError {
        return Raised;
      }
      rows := rows + [Row(nextId, listing, None)];
      r := Done(Inserted, nextId);
      nextId := nextId + 1;
    }

    /** `upsertListingsBatch`: the listings in order, each failure counted and passed over. */
    method UpsertListingsBatch(listings: seq<Listing>, faults: nat -> Fault, now: DateTime) returns (results: Tally)
      modifies this
      ensures Batch(results, State()) == UpsertBatch(old(State()), listings, faults, UpsertAt(now))
      ensures Valid(old(State())) ==> Valid(State())
    {
      if Valid(State()) {
        BatchKeepsValid(State(), listings, faults, now);
      }
      results := Tally(0, 0, 0, 0);
      for i := 0 to |listings|
        invariant Batch(results, State()) == UpsertBatch(old(State()), listings[..i], faults, UpsertAt(now))
      {
        assert listings[..i + 1][..i] == listings[..i];
        var r := UpsertListing(listings[i], faults(i), now);
        match r
        case Raised => results := results.(errors := results.errors + 1);
        case Done(Inserted, _) => results := results.(inserted := results.inserted + 1);
        case Done(Updated, _) => results := results.(updated := results.updated + 1);
        case Done(Skipped, _) => results := results.(skipped := results.skipped + 1);
      }
      assert listings[..|listings|] == listings;
    }
  }
}
