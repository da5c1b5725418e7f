/** The pure part of the calorie tracker: the entry record, the `sum` reduction,
    the seven-entry window and its caloric status, the page count, the per-row
    sign rule and the specification of the global deficit/surplus counts. */
module CalorieLedger {

  /** One logged day. The tracker creates it with 0 calories and each edit
      replaces the whole record. The value is whatever the numeric input parsed
      to, so it may be negative. */
  datatype Entry = Entry(calories: int)

  /** Number of entries on one page of the table. */
  const PAGE_SIZE: nat := 7

  function Min(a: int, b: int): int { if a <= b then a else b }

  function Max(a: int, b: int): int { if a <= b then b else a }

  // ---------------------------------------------------------------- sum

  /** `array.reduce((total, item) => total + item, 0)`: a left fold, so the
      last element is the last one added. A sum of terms none of which is
      positive is not positive; a sum of positive terms is at least their
      number. */
  function Sum(s: seq<int>): (r: int)
    ensures (forall i :: 0 <= i < |s| ==> s[i] <= 0) ==> r <= 0
    ensures (forall i :: 0 <= i < |s| ==> s[i] > 0) ==> r >= |s|
  {
    if s == [] then 0 else Sum(s[..|s| - 1]) + s[|s| - 1]
  }

  /** The same sum folded from the other end, an independent reference. */
  function SumFromFront(s: seq<int>): int
  {
    if s == [] then 0 else s[0] + SumFromFront(s[1..])
  }

  /** `sum` is additive over concatenation. */
  lemma {:induction false} SumConcat(a: seq<int>, b: seq<int>)
    ensures Sum(a + b) == Sum(a) + Sum(b)
  {
    if b != [] {
      var b' := b[..|b| - 1];
      assert (a + b)[..|a + b| - 1] == a + b';
      SumConcat(a, b');
    } else {
      assert a + b == a;
    }
  }

  /** The fold order does not matter: both ends give the same total. */
  lemma {:induction false} SumAgreesWithFrontFold(s: seq<int>)
    ensures Sum(s) == SumFromFront(s)
  {
    if s != [] {
      SumConcat([s[0]], s[1..]);
      assert [s[0]] + s[1..] == s;
      assert Sum([s[0]]) == s[0] by {
        assert [s[0]][..0] == [];
      }
      SumAgreesWithFrontFold(s[1..]);
    }
  }

  // ------------------------------------------------------- window status

  /** `window.map(({ calories }) => calories - caloricLimit)`: one term per
      entry, and a term is not positive exactly when the count rule puts its
      entry in deficit. */
  function Deltas(w: seq<Entry>, limit: int): (d: seq<int>)
    ensures |d| == |w|
    ensures forall i :: 0 <= i < |w| ==> (d[i] <= 0 <==> InDeficit(w[i], limit))
  {
    seq(|w|, i requires 0 <= i < |w| => w[i].calories - limit)
  }

  /** The calorie values of a run of entries. */
  function CaloriesOf(w: seq<Entry>): seq<int>
  {
    seq(|w|, i requires 0 <= i < |w| => w[i].calories)
  }

  /** The caloric status of a window: the sum of `calories - limit` over it.
      A window none of whose entries exceeds the limit has status at most 0
      (shown as a deficit); one whose entries all exceed it has status at
      least its length (a surplus). */
  function WindowStatus(w: seq<Entry>, limit: int): (status: int)
    ensures (forall i :: 0 <= i < |w| ==> InDeficit(w[i], limit)) ==> status <= 0
    ensures (forall i :: 0 <= i < |w| ==> !InDeficit(w[i], limit)) ==> status >= |w|
  {
    Sum(Deltas(w, limit))
  }

  /** The status of two adjacent runs is the sum of their statuses. */
  lemma WindowStatusConcat(a: seq<Entry>, b: seq<Entry>, limit: int)
    ensures WindowStatus(a + b, limit) == WindowStatus(a, limit) + WindowStatus(b, limit)
  {
    assert Deltas(a + b, limit) == Deltas(a, limit) + Deltas(b, limit);
    SumConcat(Deltas(a, limit), Deltas(b, limit));
  }

  /** `(n + 1) * k == n * k + k`, kept apart from the sequence facts. */
  lemma MulSucc(n: nat, k: int)
    ensures (n + 1) * k == n * k + k
  {
  }

  /** The status is the window's total intake minus one limit per entry. */
  lemma {:induction false} WindowStatusIsTotalMinusLimits(w: seq<Entry>, limit: int)
    ensures WindowStatus(w, limit) == Sum(CaloriesOf(w)) - |w| * limit
  {
    if w != [] {
      var w' := w[..|w| - 1];
      var d, c := Deltas(w, limit), CaloriesOf(w);
      assert d[..|w| - 1] == Deltas(w', limit);
      assert c[..|w| - 1] == CaloriesOf(w');
      assert Sum(d) == Sum(Deltas(w', limit)) + (c[|w| - 1] - limit);
      assert Sum(c) == Sum(CaloriesOf(w')) + c[|w| - 1];
      MulSucc(|w'|, limit);
      WindowStatusIsTotalMinusLimits(w', limit);
    }
  }

  // ------------------------------------------------------------- slicing

  /** `s.slice(start, end)` for non-negative bounds: both bounds are clamped to
      the length and a reversed range gives the empty sequence. */
  function Slice<T>(s: seq<T>, start: nat, end: nat): (r: seq<T>)
    ensures |r| == Max(0, Min(end, |s|) - start)
    ensures forall i :: 0 <= i < |r| ==> r[i] == s[start + i]
  {
    var lo := Min(start, |s|);
    var hi := Min(end, |s|);
    if lo < hi then s[lo..hi] else []
  }

  /** The entries shown on page `page`:
      `entries.slice(page * 7, (page + 1) * 7)`. */
  function Window(entries: seq<Entry>, page: nat): (w: seq<Entry>)
    ensures |w| == Min(PAGE_SIZE, Max(0, |entries| - page * PAGE_SIZE))
    ensures forall i :: 0 <= i < |w| ==> w[i] == entries[page * PAGE_SIZE + i]
  {
    Slice(entries, page * PAGE_SIZE, (page + 1) * PAGE_SIZE)
  }

  /** `sevenEntryWindowCount`: `Math.floor(n / 7) + 1`. The last page starts at
      or before entry `n` and ends after it. */
  function PageCount(n: nat): (count: nat)
    ensures count >= 1
    ensures (count - 1) * PAGE_SIZE <= n < count * PAGE_SIZE
  {
    n / PAGE_SIZE + 1
  }

  /** A page is empty exactly when it starts at or past the end. */
  lemma WindowEmptyIff(entries: seq<Entry>, page: nat)
    ensures Window(entries, page) == [] <==> |entries| <= page * PAGE_SIZE
  {
  }

  /** The last page the Next button reaches is empty exactly when the number of
      entries is a multiple of seven: the extra trailing page. */
  lemma LastPageEmptyIffMultiple(entries: seq<Entry>)
    ensures Window(entries, PageCount(|entries|) - 1) == [] <==> |entries| % PAGE_SIZE == 0
  {
    var last := PageCount(|entries|) - 1;
    WindowEmptyIff(entries, last);
    assert last * PAGE_SIZE == |entries| - |entries| % PAGE_SIZE;
  }

  /** Entry `i` is shown on page `i / 7`, in row `i % 7`. */
  lemma EntryOnItsPage(entries: seq<Entry>, i: nat)
    requires i < |entries|
    ensures i % PAGE_SIZE < |Window(entries, i / PAGE_SIZE)|
    ensures Window(entries, i / PAGE_SIZE)[i % PAGE_SIZE] == entries[i]
  {
    var page := i / PAGE_SIZE;
    assert page * PAGE_SIZE + i % PAGE_SIZE == i;
  }

  /** The windows of pages `0 .. k - 1`, one after the other. */
  function Paged(entries: seq<Entry>, k: nat): seq<Entry>
  {
    if k == 0 then [] else Paged(entries, k - 1) + Window(entries, k - 1)
  }

  /** The first `k` pages show exactly the first `7 * k` entries, in order. */
  lemma {:induction false} PagedIsPrefix(entries: seq<Entry>, k: nat)
    ensures Paged(entries, k) == entries[..Min(k * PAGE_SIZE, |entries|)]
  {
    if k > 0 {
      PagedIsPrefix(entries, k - 1);
      var lo := Min((k - 1) * PAGE_SIZE, |entries|);
      var hi := Min(k * PAGE_SIZE, |entries|);
      assert Window(entries, k - 1) == entries[lo..hi];
      assert entries[..lo] + entries[lo..hi] == entries[..hi];
    }
  }

  /** Paging from the first page to the last shows every entry exactly once,
      in order. */
  lemma PagesCoverEntries(entries: seq<Entry>)
    ensures Paged(entries, PageCount(|entries|)) == entries
  {
    PagedIsPrefix(entries, PageCount(|entries|));
    assert entries[..|entries|] == entries;
  }

  // ------------------------------------------------------- per-row sign

  /** What a table row shows in its Deficit/Surplus column. */
  datatype RowMark =
    | Below(deficit: nat)      // `-{limit - calories}`, in green
    | AtOrAbove(surplus: nat)  // `+{calories - limit}`, in red
  {
    /** The signed number the row displays. */
    function Value(): int {
      match this
      case Below(d) => -(d as int)
      case AtOrAbove(s) => s
    }
  }

  /** The per-row rule: a strict `calories < limit` selects the green branch. */
  function RowMarkOf(calories: int, limit: int): (r: RowMark)
    ensures r.Below? <==> calories < limit
    ensures r.Value() == calories - limit
    ensures r.Below? ==> r.deficit > 0
  {
    if calories < limit then Below(limit - calories) else AtOrAbove(calories - limit)
  }

  // ------------------------------------------------------ global counts

  /** The rule of the global count: an entry at or under the limit is in
      deficit (non-strict `<=`). It is the row's green test widened by the
      boundary case. */
  predicate InDeficit(e: Entry, limit: int)
    ensures InDeficit(e, limit) <==> RowMarkOf(e.calories, limit).Below? || e.calories == limit
  {
    e.calories <= limit
  }

  /** How many entries the count loop puts in deficit: never more than there
      are entries. */
  function DeficitCount(s: seq<Entry>, limit: int): (n: nat)
    ensures n <= |s|
  {
    if s == [] then 0
    else DeficitCount(s[..|s| - 1], limit) + (if InDeficit(s[|s| - 1], limit) then 1 else 0)
  }

  /** How many entries the count loop puts in surplus: never more than there
      are entries. */
  function SurplusCount(s: seq<Entry>, limit: int): (n: nat)
    ensures n <= |s|
  {
    if s == [] then 0
    else SurplusCount(s[..|s| - 1], limit) + (if InDeficit(s[|s| - 1], limit) then 0 else 1)
  }

  /** Every entry is counted exactly once. */
  lemma {:induction false} CountsPartition(s: seq<Entry>, limit: int)
    ensures DeficitCount(s, limit) + SurplusCount(s, limit) == |s|
  {
    if s != [] {
      CountsPartition(s[..|s| - 1], limit);
    }
  }

  /** All entries are in deficit exactly when none exceeds the limit, and all
      are in surplus exactly when every one exceeds it. */
  lemma {:induction false} CountsExtremes(s: seq<Entry>, limit: int)
    ensures DeficitCount(s, limit) == |s| <==> forall i :: 0 <= i < |s| ==> s[i].calories <= limit
    ensures SurplusCount(s, limit) == |s| <==> forall i :: 0 <= i < |s| ==> s[i].calories > limit
  {
    if s != [] {
      var s' := s[..|s| - 1];
      CountsExtremes(s', limit);
      CountsPartition(s', limit);
      assert forall i :: 0 <= i < |s'| ==> s'[i] == s[i];
    }
  }

  /** Appending one entry adds it to exactly one of the counts. */
  lemma CountsAppend(s: seq<Entry>, e: Entry, limit: int)
    ensures DeficitCount(s + [e], limit) == DeficitCount(s, limit) + (if InDeficit(e, limit) then 1 else 0)
    ensures SurplusCount(s + [e], limit) == SurplusCount(s, limit) + (if InDeficit(e, limit) then 0 else 1)
  {
    assert (s + [e])[..|s|] == s;
  }

  /** Replacing entry `i` changes the deficit count only by the old and the new
      value of that one entry. */
  lemma {:induction false} DeficitCountUpdate(s: seq<Entry>, i: nat, e: Entry, limit: int)
    requires i < |s|
    ensures DeficitCount(s[i := e], limit)
         == DeficitCount(s, limit)
            - (if InDeficit(s[i], limit) then 1 else 0)
            + (if InDeficit(e, limit) then 1 else 0)
  {
    var t := s[i := e];
    if i < |s| - 1 {
      assert t[..|t| - 1] == s[..|s| - 1][i := e];
      DeficitCountUpdate(s[..|s| - 1], i, e, limit);
    } else {
      assert t[..|t| - 1] == s[..|s| - 1];
    }
  }

  /** The per-row mark and the global count classify an entry differently
      exactly when it sits on the limit: it shows `+0` yet counts as deficit. */
  lemma RowAndCountDisagreeOnlyAtLimit(e: Entry, limit: int)
    ensures RowMarkOf(e.calories, limit).Below? != InDeficit(e, limit) <==> e.calories == limit
    ensures e.calories == limit ==> RowMarkOf(e.calories, limit) == AtOrAbove(0)
  {
  }

  /** Entries all on the limit: every row shows `+0` and every entry counts as
      deficit, none as surplus. */
  lemma AllAtLimit(s: seq<Entry>, limit: int)
    requires forall i :: 0 <= i < |s| ==> s[i].calories == limit
    ensures DeficitCount(s, limit) == |s| && SurplusCount(s, limit) == 0
    ensures forall i :: 0 <= i < |s| ==> RowMarkOf(s[i].calories, limit) == AtOrAbove(0)
  {
    CountsExtremes(s, limit);
    CountsPartition(s, limit);
  }
}
