/** `generateAndGetOutfits`: fetch and filter the inventory, check that a
    complete outfit exists, then accept composed outfits until
    `min(count, maxUnicos)` distinct ones are stored, each assigned the
    weekday that follows the start day by its position. The loop reads a
    finite stream of draws; running out of draws before the target is
    reached is reported as `Spinning`, the model of a loop that does not
    stop. */
module Generator {
  import opened Basics
  import opened Js
  import opened Days
  import opened Garments
  import opened Availability
  import opened Composer
  import opened OutfitKey
  import opened Store

  /** Category `c` is among the requested ones. */
  predicate Wants(p: Policy, c: int) {
    (c == Superior && p.superior) || (c == Inferior && p.inferior) || (c == Zapatos && p.zapatos)
    || (c == Exterior && p.exterior) || (c == Monopieza && p.monopieza)
  }

  predicate NoneWanted(p: Policy) {
    !p.superior && !p.inferior && !p.zapatos && !p.exterior && !p.monopieza
  }

  /** `prendasFiltradas`: the items of a requested category, or every item
      when no category is requested. */
  function FilterByCategories(prendas: seq<Item>, p: Policy): (r: seq<Item>)
    ensures NoneWanted(p) ==> r == prendas
    ensures !NoneWanted(p) ==> forall x :: x in r <==> x in prendas && Wants(p, x.categoria)
  {
    if NoneWanted(p) then prendas else Filter(prendas, (x: Item) => Wants(p, x.categoria))
  }

  /** When every item is of a requested category the filter keeps them all. */
  lemma FilterByCategoriesKeepsWanted(prendas: seq<Item>, p: Policy)
    requires forall i :: 0 <= i < |prendas| ==> Wants(p, prendas[i].categoria)
    ensures FilterByCategories(prendas, p) == prendas
  {
    if !NoneWanted(p) {
      FilterAll(prendas, (x: Item) => Wants(p, x.categoria));
    }
  }

  // ---------------------------------------------------------------- accept loop

  /** No two outfits share a key. */
  predicate DistinctKeys(acc: seq<seq<Item>>) {
    forall i, j :: 0 <= i < j < |acc| ==> Key(acc[i]) != Key(acc[j])
  }

  /** The key of `o` is not among the keys of `acc`. */
  predicate IsNew(acc: seq<seq<Item>>, o: seq<Item>) {
    forall i :: 0 <= i < |acc| ==> Key(acc[i]) != Key(o)
  }

  /** Accepting an outfit with a new key keeps the keys distinct. */
  lemma NewKeyKeepsDistinct(acc: seq<seq<Item>>, o: seq<Item>)
    requires DistinctKeys(acc) && IsNew(acc, o)
    ensures DistinctKeys(acc + [o])
  {
  }

  /** The loop bound `Math.min(count, maxUnicos)` as a number of outfits. */
  function Goal(count: int, maxUnicos: nat): (n: nat)
    ensures n <= maxUnicos && (count >= 0 ==> n <= count)
    ensures count >= 1 && maxUnicos >= 1 ==> n >= 1
  {
    if count <= 0 then 0 else if count < maxUnicos then count else maxUnicos
  }

  /** One turn of the loop: the candidate a draw composes, if any (an
      error and `null` are both skipped). */
  function Candidate(items: seq<Item>, p: Policy, d: Draw): (r: Option<seq<Item>>)
    ensures r.Some? <==> GenerateOutfit(items, p, d).Ok? && GenerateOutfit(items, p, d).value.Some?
    ensures r.Some? ==> GenerateOutfit(items, p, d) == Ok(Some(r.value))
  {
    match GenerateOutfit(items, p, d)
    case Err(_) => None
    case Ok(o) => o
  }

  /** The candidates of a stream of draws, one per draw. */
  function Candidates(items: seq<Item>, p: Policy, draws: seq<Draw>): (r: seq<Option<seq<Item>>>)
    ensures |r| == |draws|
    ensures forall i :: 0 <= i < |draws| ==> r[i] == Candidate(items, p, draws[i])
  {
    seq(|draws|, i requires 0 <= i < |draws| => Candidate(items, p, draws[i]))
  }

  /** The candidates of the draws after the first. */
  lemma CandidatesTail(items: seq<Item>, p: Policy, draws: seq<Draw>)
    requires |draws| > 0
    ensures Candidates(items, p, draws)[1..] == Candidates(items, p, draws[1..])
    ensures Candidates(items, p, draws)[0] == Candidate(items, p, draws[0])
  {
  }

  lemma CandidatesAppend(items: seq<Item>, p: Policy, a: seq<Draw>, b: seq<Draw>)
    ensures Candidates(items, p, a + b) == Candidates(items, p, a) + Candidates(items, p, b)
  {
    var l, r := Candidates(items, p, a + b), Candidates(items, p, a) + Candidates(items, p, b);
    forall i | 0 <= i < |l| ensures l[i] == r[i] {
      if i < |a| {
        assert (a + b)[i] == a[i];
      } else {
        assert (a + b)[i] == b[i - |a|];
      }
    }
  }

  /** The accept loop over a stream of candidates, from the accepted
      outfits `acc` on: a skipped draw or a known key changes nothing, a
      new key is accepted. The loop stops at the target or when the stream
      runs out; the result is every outfit accepted up to then, each of
      which the source has already written. */
  function Kept(cands: seq<Option<seq<Item>>>, goal: nat, acc: seq<seq<Item>>): (r: seq<seq<Item>>)
    requires |acc| <= goal
    ensures |acc| <= |r| <= goal && r[..|acc|] == acc
    ensures |r| < goal ==> |r| - |acc| <= |cands|
    decreases |cands|
  {
    if |acc| == goal || |cands| == 0 then acc
    else
      var c := cands[0];
      if c.Some? && IsNew(acc, c.value) then
        var r := Kept(cands[1..], goal, acc + [c.value]);
        assert r[..|acc|] == r[..|acc| + 1][..|acc|];
        r
      else Kept(cands[1..], goal, acc)
  }

  /** The loop as the source runs it: it ends only once the target is met,
      so a stream that runs out first is `None`. */
  function AcceptLoop(cands: seq<Option<seq<Item>>>, goal: nat, acc: seq<seq<Item>>): (r: Option<seq<seq<Item>>>)
    requires |acc| <= goal
    ensures r.Some? ==> |r.value| == goal && r.value[..|acc|] == acc
    ensures r.None? ==> |Kept(cands, goal, acc)| < goal
  {
    var kept := Kept(cands, goal, acc);
    if |kept| == goal then Some(kept) else None
  }

  /** The outfits accepted from the candidates the draws compose. */
  function Accepted(items: seq<Item>, p: Policy, goal: nat, draws: seq<Draw>, acc: seq<seq<Item>>)
    : (r: seq<seq<Item>>)
    requires |acc| <= goal
    ensures |acc| <= |r| <= goal && r[..|acc|] == acc
  {
    Kept(Candidates(items, p, draws), goal, acc)
  }

  /** The accept loop on the candidates the draws compose. */
  function Accept(items: seq<Item>, p: Policy, goal: nat, draws: seq<Draw>, acc: seq<seq<Item>>)
    : (r: Option<seq<seq<Item>>>)
    requires |acc| <= goal
    ensures r.Some? ==> |r.value| == goal && r.value[..|acc|] == acc
    ensures r.Some? <==> |Accepted(items, p, goal, draws, acc)| == goal
    ensures r.Some? ==> r.value == Accepted(items, p, goal, draws, acc)
  {
    AcceptLoop(Candidates(items, p, draws), goal, acc)
  }

  /** More draws never undo an acceptance: what a stream accepts is a
      prefix of what the same stream followed by more draws accepts. */
  lemma {:induction false} KeptExtends(cands: seq<Option<seq<Item>>>, more: seq<Option<seq<Item>>>,
                                      goal: nat, acc: seq<seq<Item>>)
    requires |acc| <= goal
    ensures var short := Kept(cands, goal, acc);
      var long := Kept(cands + more, goal, acc);
      |short| <= |long| && long[..|short|] == short
    ensures |Kept(cands, goal, acc)| == goal ==> Kept(cands + more, goal, acc) == Kept(cands, goal, acc)
    decreases |cands|
  {
    if |acc| < goal && |cands| > 0 {
      assert (cands + more)[1..] == cands[1..] + more;
      assert (cands + more)[0] == cands[0];
      var c := cands[0];
      if c.Some? && IsNew(acc, c.value) {
        KeptExtends(cands[1..], more, goal, acc + [c.value]);
      } else {
        KeptExtends(cands[1..], more, goal, acc);
      }
    } else if |acc| < goal {
      assert cands + more == more;
    }
  }

  /** The outfits a spinning run has written are the first ones any longer
      supply of draws would accept, and a supply that completes the run
      accepts them too. */
  lemma AcceptedExtends(items: seq<Item>, p: Policy, goal: nat, draws: seq<Draw>, more: seq<Draw>)
    ensures var short := Accepted(items, p, goal, draws, []);
      var long := Accepted(items, p, goal, draws + more, []);
      |short| <= |long| && long[..|short|] == short
  {
    CandidatesAppend(items, p, draws, more);
    KeptExtends(Candidates(items, p, draws), Candidates(items, p, more), goal, []);
  }

  /** The loop only accepts new keys, so the accepted outfits have
      pairwise different keys. */
  lemma {:induction false} KeptDistinct(cands: seq<Option<seq<Item>>>, goal: nat, acc: seq<seq<Item>>)
    requires |acc| <= goal && DistinctKeys(acc)
    ensures DistinctKeys(Kept(cands, goal, acc))
    decreases |cands|
  {
    if |acc| < goal && |cands| > 0 {
      var c := cands[0];
      if c.Some? && IsNew(acc, c.value) {
        NewKeyKeepsDistinct(acc, c.value);
        KeptDistinct(cands[1..], goal, acc + [c.value]);
      } else {
        KeptDistinct(cands[1..], goal, acc);
      }
    }
  }

  lemma AcceptDistinct(items: seq<Item>, p: Policy, goal: nat, draws: seq<Draw>, acc: seq<seq<Item>>)
    requires |acc| <= goal && DistinctKeys(acc)
    ensures DistinctKeys(Accepted(items, p, goal, draws, acc))
    ensures Accept(items, p, goal, draws, acc).Some? ==> DistinctKeys(Accept(items, p, goal, draws, acc).value)
  {
    KeptDistinct(Candidates(items, p, draws), goal, acc);
  }

  /** One turn of the loop that accepts nothing: the target is not yet met
      and the draw composes nothing new. */
  lemma AcceptSkips(items: seq<Item>, p: Policy, goal: nat, draws: seq<Draw>, acc: seq<seq<Item>>)
    requires |acc| < goal && DistinctKeys(acc) && |draws| > 0
    requires Candidate(items, p, draws[0]).None? || !IsNew(acc, Candidate(items, p, draws[0]).value)
    ensures Accepted(items, p, goal, draws, acc) == Accepted(items, p, goal, draws[1..], acc)
    ensures Accept(items, p, goal, draws, acc) == Accept(items, p, goal, draws[1..], acc)
  {
    CandidatesTail(items, p, draws);
  }

  /** One turn of the loop that accepts the draw's outfit. */
  lemma AcceptTakes(items: seq<Item>, p: Policy, goal: nat, draws: seq<Draw>, acc: seq<seq<Item>>, o: seq<Item>)
    requires |acc| < goal && DistinctKeys(acc) && |draws| > 0
    requires Candidate(items, p, draws[0]) == Some(o) && IsNew(acc, o)
    ensures DistinctKeys(acc + [o])
    ensures Accepted(items, p, goal, draws, acc) == Accepted(items, p, goal, draws[1..], acc + [o])
    ensures Accept(items, p, goal, draws, acc) == Accept(items, p, goal, draws[1..], acc + [o])
  {
    NewKeyKeepsDistinct(acc, o);
    CandidatesTail(items, p, draws);
  }

  /** Every outfit the loop accepts is one of the candidates. */
  lemma {:induction false} KeptProduces(cands: seq<Option<seq<Item>>>, goal: nat, acc: seq<seq<Item>>, k: nat)
    requires |acc| <= goal
    requires |acc| <= k < |Kept(cands, goal, acc)|
    ensures exists i :: 0 <= i < |cands| && cands[i] == Some(Kept(cands, goal, acc)[k])
    decreases |cands|
  {
    var r := Kept(cands, goal, acc);
    var c := cands[0];
    if c.Some? && IsNew(acc, c.value) {
      if k == |acc| {
        assert r[..|acc| + 1] == acc + [c.value];
        assert r[k] == c.value by { assert r[k] == r[..|acc| + 1][k]; }
      } else {
        KeptProduces(cands[1..], goal, acc + [c.value], k);
        var i :| 0 <= i < |cands| - 1 && cands[1..][i] == Some(r[k]);
        assert cands[i + 1] == Some(r[k]);
      }
    } else {
      KeptProduces(cands[1..], goal, acc, k);
      var i :| 0 <= i < |cands| - 1 && cands[1..][i] == Some(r[k]);
      assert cands[i + 1] == Some(r[k]);
    }
  }

  /** Every accepted outfit is what `generateOutfit` composed from one of
      the draws. */
  lemma AcceptProduces(items: seq<Item>, p: Policy, goal: nat, draws: seq<Draw>, acc: seq<seq<Item>>, k: nat)
    requires |acc| <= goal
    requires |acc| <= k < |Accepted(items, p, goal, draws, acc)|
    ensures exists d :: d in draws && GenerateOutfit(items, p, d) == Ok(Some(Accepted(items, p, goal, draws, acc)[k]))
  {
    var cands := Candidates(items, p, draws);
    KeptProduces(cands, goal, acc, k);
    var i :| 0 <= i < |cands| && cands[i] == Some(Kept(cands, goal, acc)[k]);
    assert GenerateOutfit(items, p, draws[i]) == Ok(Some(Accepted(items, p, goal, draws, acc)[k]));
  }

  // ---------------------------------------------------------------- writing the outfits

  /** `Outfit.findById` of a stored outfit: the row, its items and the
      English weekday name of its date (`TO_CHAR(fecha, 'TMDay')`). */
  datatype Saved = Saved(row: OutfitRow, items: seq<Item>, dia: Option<string>)

  function DayName(fecha: Option<int>): (r: Option<string>)
    ensures fecha.Some? ==> r == Some(EnglishNames[Weekday(fecha.value)])
    ensures fecha.None? ==> r.None?
  {
    match fecha
    case Some(f) => Some(EnglishNames[Weekday(f)])
    case None => None
  }

  /** The Spanish name the generator gives the k-th accepted outfit
      (1-based): the size of the key set is read after the insertion. */
  function DiaSemana(start: int, k: nat): string {
    DiasSemana[(Weekday(start) + k) % 7]
  }

  /** Link every item with a truthy id to the outfit. */
  function LinkItems(db: Db, outfit: int, items: seq<Item>): (r: Db)
    ensures r.outfits == db.outfits && r.stacks == db.stacks
    ensures r.nextOutfit == db.nextOutfit && r.nextStack == db.nextStack
    ensures forall l :: l in r.links <==> l in db.links || exists x :: x in items && x.id != 0 && l == Link(outfit, x.id)
    decreases |items|
  {
    if |items| == 0 then db
    else
      var before := LinkItems(db, outfit, items[..|items| - 1]);
      var x := items[|items| - 1];
      assert forall y :: y in items <==> y in items[..|items| - 1] || y == x;
      if x.id != 0 then AddPrendaToOutfit(before, outfit, x.id) else before
  }

  /** Store the accepted outfits in order: for the k-th, `Outfit.create`
      with the stack id, the style of its first item, its weekday name and
      the start date, then its links, then the read-back. */
  function Persist(db: Db, user: int, stackId: int, start: int, accepted: seq<seq<Item>>)
    : (r: (Db, seq<Saved>))
    requires forall k :: 0 <= k < |accepted| ==> |accepted[k]| > 0
    ensures |r.1| == |accepted|
    ensures r.0.stacks == db.stacks && r.0.nextStack == db.nextStack
    ensures r.0.nextOutfit == db.nextOutfit + |accepted|
    decreases |accepted|
  {
    if |accepted| == 0 then (db, [])
    else
      var n := |accepted|;
      var prev := Persist(db, user, stackId, start, accepted[..n - 1]);
      var o := accepted[n - 1];
      var created := OutfitCreate(prev.0, user, Str(o[0].estilo), Num(stackId),
                                  Some(DiaSemana(start, n)), Some(start));
      var db2 := LinkItems(created.value.db, created.value.row.id, o);
      (db2, prev.1 + [Saved(created.value.row, o, DayName(created.value.row.fecha))])
  }

  /** The k-th stored outfit (0-based) as the read-back shows it: the next
      serial id, the user, the style of its first item, the stack (a stack
      id of 0 is falsy and links none), the date `(k + 1) % 7` days after
      the start, its items and the English name of that date. */
  function StoredRow(user: int, stackId: int, start: int, firstId: int, o: seq<Item>, k: nat): Saved
    requires |o| > 0
  {
    var fecha := start + (k + 1) % 7;
    Saved(OutfitRow(firstId + k, user, Some(o[0].estilo), if stackId == 0 then None else Some(stackId), Some(fecha)),
          o, Some(EnglishNames[Weekday(fecha)]))
  }

  /** The rows the accepted outfits are expected to be stored as, in order,
      numbered from `firstId`. */
  function StoredRows(user: int, stackId: int, start: int, firstId: int, accepted: seq<seq<Item>>): (r: seq<Saved>)
    requires forall k :: 0 <= k < |accepted| ==> |accepted[k]| > 0
    ensures |r| == |accepted|
    decreases |accepted|
  {
    if |accepted| == 0 then []
    else
      var n := |accepted|;
      StoredRows(user, stackId, start, firstId, accepted[..n - 1])
      + [StoredRow(user, stackId, start, firstId, accepted[n - 1], n - 1)]
  }

  lemma {:induction false} StoredRowsAt(user: int, stackId: int, start: int, firstId: int,
                                        accepted: seq<seq<Item>>, k: nat)
    requires forall j :: 0 <= j < |accepted| ==> |accepted[j]| > 0
    requires k < |accepted|
    ensures StoredRows(user, stackId, start, firstId, accepted)[k]
            == StoredRow(user, stackId, start, firstId, accepted[k], k)
    decreases |accepted|
  {
    var n := |accepted|;
    if k < n - 1 {
      StoredRowsAt(user, stackId, start, firstId, accepted[..n - 1], k);
    }
  }

  /** Storing one more outfit appends its expected row to the rows stored
      before. */
  lemma PersistLast(db: Db, user: int, stackId: int, start: int, accepted: seq<seq<Item>>)
    requires forall j :: 0 <= j < |accepted| ==> |accepted[j]| > 0
    requires |accepted| > 0
    ensures var n := |accepted|;
      Persist(db, user, stackId, start, accepted).1
      == Persist(db, user, stackId, start, accepted[..n - 1]).1
         + [StoredRow(user, stackId, start, db.nextOutfit, accepted[n - 1], n - 1)]
  {
    var n := |accepted|;
    var prev := Persist(db, user, stackId, start, accepted[..n - 1]);
    var o := accepted[n - 1];
    CreatedRow(prev.0, user, o[0].estilo, stackId, Some(DiaSemana(start, n)), Some(start));
    AssignedDate(start, n);
    var row := OutfitCreate(prev.0, user, Str(o[0].estilo), Num(stackId), Some(DiaSemana(start, n)), Some(start)).value.row;
    assert Persist(db, user, stackId, start, accepted).1 == prev.1 + [Saved(row, o, DayName(row.fecha))];
    assert prev.0.nextOutfit == db.nextOutfit + (n - 1);
    SavedIsStoredRow(row, o, user, stackId, start, db.nextOutfit, n);
  }

  /** The read-back of the n-th row (1-based) inserted for an outfit is
      its expected row. */
  lemma SavedIsStoredRow(row: OutfitRow, o: seq<Item>, user: int, stackId: int, start: int, firstId: int, n: nat)
    requires |o| > 0 && n >= 1
    requires row == OutfitRow(firstId + n - 1, user, Some(o[0].estilo), if stackId == 0 then None else Some(stackId),
                              Some(start + n % 7))
    ensures Saved(row, o, DayName(row.fecha)) == StoredRow(user, stackId, start, firstId, o, n - 1)
  {
  }

  /** `Outfit.create` followed by `findById` stores exactly the expected
      rows: the k-th outfit gets id `nextOutfit + k`, the user, its first
      item's style, the stack, the date its weekday name assigns and that
      date's English name. */
  lemma {:induction false} PersistStored(db: Db, user: int, stackId: int, start: int, accepted: seq<seq<Item>>)
    requires forall j :: 0 <= j < |accepted| ==> |accepted[j]| > 0
    ensures Persist(db, user, stackId, start, accepted).1 == StoredRows(user, stackId, start, db.nextOutfit, accepted)
    decreases |accepted|
  {
    if |accepted| > 0 {
      PersistStored(db, user, stackId, start, accepted[..|accepted| - 1]);
      PersistLast(db, user, stackId, start, accepted);
    }
  }

  /** The outfit named with the weekday `n` days after the start's is dated
      `n % 7` days after the start, and its date's weekday is the one its
      Spanish name says: the first outfit (`n = 1`) falls on the day after
      the start and dates repeat after a week. */
  lemma AssignedDate(start: int, n: nat)
    ensures FechaAsignada(Some(DiaSemana(start, n)), Some(start)) == Some(start + n % 7)
    ensures DiasSemana[Weekday(start + n % 7)] == DiaSemana(start, n)
  {
    var w := Weekday(start);
    var idx := (w + n) % 7;
    DayIndexOf(idx);
    WeekShift(start, n);
  }

  lemma ModOf(x: int, d: int, r: int)
    requires x == 7 * d + r && 0 <= r < 7
    ensures x % 7 == r
  {
  }

  /** Going forward from the start to the weekday `n` days on takes
      `n % 7` days. */
  lemma WeekShift(start: int, n: nat)
    ensures ((Weekday(start) + n) % 7 - Weekday(start) + 7) % 7 == n % 7
    ensures Weekday(start + n % 7) == (Weekday(start) + n) % 7
  {
    var w, q := start % 7, n % 7;
    if w + q < 7 {
      ModOf(w + n, n / 7, w + q);
      ModOf(start + q, start / 7, w + q);
    } else {
      ModOf(w + n, n / 7 + 1, w + q - 7);
      ModOf(start + q, start / 7 + 1, w + q - 7);
    }
  }

  // ---------------------------------------------------------------- generateAndGetOutfits

  datatype GenData = GenData(outfits: seq<Saved>, total: nat, uniqueCount: nat, maxUniquePossible: nat,
                             containsRepeats: bool, requestedCount: int, usedCategories: Policy)

  datatype GenOutcome = GenSuccess(data: GenData) | GenFailure(error: string) | Spinning

  datatype GenRun = GenRun(db: Db, outcome: GenOutcome)

  const NoItemsForStyles := "No se encontraron prendas para los estilos especificados"
  const NoItemsAvailable := "No se encontraron prendas disponibles"
  const NoItemsInCategories := "No hay prendas en las categorías seleccionadas"
  const NoCompatibleItems := "No hay prendas compatibles en los estilos seleccionados"
  const NoValidOutfits := "No se pudieron generar outfits válidos con las categorías seleccionadas"

  /** A style argument that selects the style-filtered query. */
  predicate StyleGiven(style: Option<string>) {
    style.Some? && style.value != ""
  }

  /** The inventory the generator works on. */
  function Inventory(table: seq<Item>, user: int, style: Option<string>, p: Policy): seq<Item> {
    FilterByCategories(Fetch(table, user, if StyleGiven(style) then style else None), p)
  }

  /** The checks before the loop, in the source's order: the inventory
      they let through, or the first failure. */
  function Precheck(table: seq<Item>, user: int, style: Option<string>, p: Policy): (r: Result<seq<Item>, string>)
    ensures r.Ok? <==> CheckAvailability(Inventory(table, user, style, p)).puedeGenerarOutfits
    ensures r.Ok? ==> r.value == Inventory(table, user, style, p)
  {
    var prendas := Fetch(table, user, if StyleGiven(style) then style else None);
    if |prendas| == 0 then Err(if StyleGiven(style) then NoItemsForStyles else NoItemsAvailable)
    else
      var filtradas := FilterByCategories(prendas, p);
      if |filtradas| == 0 then Err(NoItemsInCategories)
      else if !CheckAvailability(filtradas).puedeGenerarOutfits then Err(NoCompatibleItems)
      else Ok(filtradas)
  }

  /** The loop and the writes, on an inventory that passed the checks.
      Each accepted outfit is written as soon as it is accepted, so a run
      whose draws run out has still written the outfits accepted so far. */
  function Produce(db: Db, items: seq<Item>, user: int, stackId: int, count: int, p: Policy,
                   start: int, draws: seq<Draw>): (r: GenRun)
    requires CheckAvailability(items).puedeGenerarOutfits
    ensures r.db.stacks == db.stacks
    ensures r.outcome.GenFailure? ==> r.db == db && r.outcome.error == NoValidOutfits
    ensures r.outcome.Spinning? ==>
      var goal := Goal(count, CalculateMaxOutfits(items));
      && |Accepted(items, p, goal, draws, [])| < goal
      && r.db.nextOutfit == db.nextOutfit + |Accepted(items, p, goal, draws, [])|
    ensures r.outcome.GenSuccess? ==>
      var data := r.outcome.data;
      && data.total == data.uniqueCount == |data.outfits| == Goal(count, CalculateMaxOutfits(items))
      && data.uniqueCount <= count && data.uniqueCount <= data.maxUniquePossible
      && data.maxUniquePossible == CalculateMaxOutfits(items)
      && !data.containsRepeats
      && data.requestedCount == count && data.usedCategories == p
  {
    var maxUnicos := CalculateMaxOutfits(items);
    var goal := Goal(count, maxUnicos);
    var accepted := Accepted(items, p, goal, draws, []);
    AcceptedNonEmpty(items, p, goal, draws);
    var stored := Persist(db, user, stackId, start, accepted);
    if |accepted| < goal then GenRun(stored.0, Spinning)
    else if |stored.1| == 0 then GenRun(stored.0, GenFailure(NoValidOutfits))
    else
      GenRun(stored.0, GenSuccess(GenData(stored.1, |stored.1|, |accepted|, maxUnicos,
                                          |stored.1| > |accepted|, count, p)))
  }

  /** `generateAndGetOutfits`. */
  function GenerateAndGetOutfits(db: Db, table: seq<Item>, user: int, stackId: int, count: int,
                                 style: Option<string>, p: Policy, start: int, draws: seq<Draw>): (r: GenRun)
    ensures r.db.stacks == db.stacks
    ensures r.outcome.GenFailure? ==> r.db == db
    ensures r.outcome.Spinning? ==>
      var items := Inventory(table, user, style, p);
      var goal := Goal(count, CalculateMaxOutfits(items));
      && |Accepted(items, p, goal, draws, [])| < goal
      && r.db.nextOutfit == db.nextOutfit + |Accepted(items, p, goal, draws, [])|
    ensures r.outcome.GenSuccess? ==>
      var data := r.outcome.data;
      var items := Inventory(table, user, style, p);
      && data.total == data.uniqueCount == |data.outfits| == Goal(count, CalculateMaxOutfits(items))
      && data.uniqueCount <= count && data.uniqueCount <= data.maxUniquePossible
      && data.maxUniquePossible == CalculateMaxOutfits(items)
      && !data.containsRepeats
      && data.requestedCount == count && data.usedCategories == p
  {
    match Precheck(table, user, style, p)
    case Err(e) => GenRun(db, GenFailure(e))
    case Ok(items) => Produce(db, items, user, stackId, count, p, start, draws)
  }

  lemma AcceptedNonEmpty(items: seq<Item>, p: Policy, goal: nat, draws: seq<Draw>)
    ensures var accepted := Accepted(items, p, goal, draws, []);
      forall k :: 0 <= k < |accepted| ==> |accepted[k]| > 0
  {
    var accepted := Accepted(items, p, goal, draws, []);
    forall k | 0 <= k < |accepted| ensures |accepted[k]| > 0 {
      AcceptProduces(items, p, goal, draws, [], k);
      var d :| d in draws && GenerateOutfit(items, p, d) == Ok(Some(accepted[k]));
    }
  }

  /** With a stack id, storing the accepted outfits deletes nothing: every
      read-back row is in the store, and so is a link from it to each of
      its items with an id. */
  lemma {:induction false} PersistWrites(db: Db, user: int, stackId: int, start: int, accepted: seq<seq<Item>>)
    requires forall j :: 0 <= j < |accepted| ==> |accepted[j]| > 0
    requires stackId != 0
    ensures var s := Persist(db, user, stackId, start, accepted);
      && db.outfits <= s.0.outfits && db.links <= s.0.links
      && (forall k :: 0 <= k < |accepted| ==> s.1[k].row in s.0.outfits)
      && (forall k, x :: 0 <= k < |accepted| && x in accepted[k] && x.id != 0 ==> Link(s.1[k].row.id, x.id) in s.0.links)
    decreases |accepted|
  {
    if |accepted| > 0 {
      var n := |accepted|;
      PersistWrites(db, user, stackId, start, accepted[..n - 1]);
      var prev := Persist(db, user, stackId, start, accepted[..n - 1]);
      var o := accepted[n - 1];
      var created := OutfitCreate(prev.0, user, Str(o[0].estilo), Num(stackId), Some(DiaSemana(start, n)), Some(start));
      assert created.value.db.outfits == prev.0.outfits + {created.value.row};
      assert created.value.db.links == prev.0.links;
      var s := Persist(db, user, stackId, start, accepted);
      assert s.0 == LinkItems(created.value.db, created.value.row.id, o);
      assert s.1 == prev.1 + [Saved(created.value.row, o, DayName(created.value.row.fecha))];
      forall k, x | 0 <= k < n && x in accepted[k] && x.id != 0
        ensures Link(s.1[k].row.id, x.id) in s.0.links
      {
        if k < n - 1 {
          assert accepted[..n - 1][k] == accepted[k];
          assert s.1[k] == prev.1[k];
        } else {
          assert s.1[k].row == created.value.row;
        }
      }
      forall k | 0 <= k < n ensures s.1[k].row in s.0.outfits {
        if k < n - 1 {
          assert s.1[k] == prev.1[k];
        }
      }
    }
  }

  /** A run that does not finish has still written every outfit it
      accepted before the draws ran out, fewer than the target: each with
      the row, date and day name a finished run gives it and, with a stack
      id, with its links; their keys are pairwise different. */
  lemma SpinningCommitted(db: Db, table: seq<Item>, user: int, stackId: int, count: int,
                          style: Option<string>, p: Policy, start: int, draws: seq<Draw>)
    requires GenerateAndGetOutfits(db, table, user, stackId, count, style, p, start, draws).outcome.Spinning?
    ensures var items := Inventory(table, user, style, p);
      var goal := Goal(count, CalculateMaxOutfits(items));
      var accepted := Accepted(items, p, goal, draws, []);
      var r := GenerateAndGetOutfits(db, table, user, stackId, count, style, p, start, draws);
      && |accepted| < goal
      && (forall j :: 0 <= j < |accepted| ==> |accepted[j]| > 0)
      && DistinctKeys(accepted)
      && r.db == Persist(db, user, stackId, start, accepted).0
      && Persist(db, user, stackId, start, accepted).1 == StoredRows(user, stackId, start, db.nextOutfit, accepted)
      && (stackId != 0 ==> forall k :: 0 <= k < |accepted| ==>
            StoredRows(user, stackId, start, db.nextOutfit, accepted)[k].row in r.db.outfits)
  {
    var items := Inventory(table, user, style, p);
    var goal := Goal(count, CalculateMaxOutfits(items));
    var accepted := Accepted(items, p, goal, draws, []);
    AcceptedNonEmpty(items, p, goal, draws);
    AcceptDistinct(items, p, goal, draws, []);
    PersistStored(db, user, stackId, start, accepted);
    if stackId != 0 {
      PersistWrites(db, user, stackId, start, accepted);
    }
  }

  /** A successful run stored exactly the accepted outfits. */
  lemma SuccessStored(db: Db, table: seq<Item>, user: int, stackId: int, count: int,
                      style: Option<string>, p: Policy, start: int, draws: seq<Draw>)
    requires GenerateAndGetOutfits(db, table, user, stackId, count, style, p, start, draws).outcome.GenSuccess?
    ensures var items := Inventory(table, user, style, p);
      var goal := Goal(count, CalculateMaxOutfits(items));
      && Accept(items, p, goal, draws, []).Some?
      && (forall j :: 0 <= j < |Accept(items, p, goal, draws, []).value| ==> |Accept(items, p, goal, draws, []).value[j]| > 0)
      && GenerateAndGetOutfits(db, table, user, stackId, count, style, p, start, draws).outcome.data.outfits
         == Persist(db, user, stackId, start, Accept(items, p, goal, draws, []).value).1
  {
    var items := Inventory(table, user, style, p);
    var goal := Goal(count, CalculateMaxOutfits(items));
    AcceptedNonEmpty(items, p, goal, draws);
  }

  /** The k-th stored outfit (0-based) is dated `(k + 1) % 7` days after the
      start and its day label translates to the Spanish weekday the
      generator named for it. */
  lemma StoredDay(db: Db, user: int, stackId: int, start: int, accepted: seq<seq<Item>>, k: nat)
    requires forall j :: 0 <= j < |accepted| ==> |accepted[j]| > 0
    requires k < |accepted|
    ensures var s := Persist(db, user, stackId, start, accepted).1[k];
      && s.row.fecha == Some(start + (k + 1) % 7)
      && s.row.owner == user
      && s.items == accepted[k]
      && s.dia.Some? && TranslateLabel(s.dia.value) == DiasSemana[(Weekday(start) + k + 1) % 7]
  {
    PersistStored(db, user, stackId, start, accepted);
    StoredRowsAt(user, stackId, start, db.nextOutfit, accepted, k);
    DayLabel(start, k);
  }

  /** The English name of the k-th outfit's date translates to the Spanish
      name the generator gave it. */
  lemma DayLabel(start: int, k: nat)
    ensures TranslateLabel(EnglishNames[Weekday(start + (k + 1) % 7)]) == DiasSemana[(Weekday(start) + k + 1) % 7]
  {
    var w := Weekday(start + (k + 1) % 7);
    assert w == (Weekday(start) + k + 1) % 7;
    TranslateEnglishName(w);
  }

  /** What a successful run stored, outfit by outfit: the k-th (0-based) is
      dated `(k + 1) % 7` days after the start, its day label translates to
      the Spanish weekday the generator named, and its items are an outfit
      `generateOutfit` composed from one of the draws. */
  lemma GeneratedOutfit(db: Db, table: seq<Item>, user: int, stackId: int, count: int,
                        style: Option<string>, p: Policy, start: int, draws: seq<Draw>, k: nat)
    requires GenerateAndGetOutfits(db, table, user, stackId, count, style, p, start, draws).outcome.GenSuccess?
    requires k < |GenerateAndGetOutfits(db, table, user, stackId, count, style, p, start, draws).outcome.data.outfits|
    ensures var s := GenerateAndGetOutfits(db, table, user, stackId, count, style, p, start, draws).outcome.data.outfits[k];
      && s.row.fecha == Some(start + (k + 1) % 7)
      && s.row.owner == user
      && s.dia.Some? && TranslateLabel(s.dia.value) == DiasSemana[(Weekday(start) + k + 1) % 7]
      && exists d :: d in draws && GenerateOutfit(Inventory(table, user, style, p), p, d) == Ok(Some(s.items))
  {
    var items := Inventory(table, user, style, p);
    var goal := Goal(count, CalculateMaxOutfits(items));
    SuccessStored(db, table, user, stackId, count, style, p, start, draws);
    var accepted := Accept(items, p, goal, draws, []).value;
    StoredDay(db, user, stackId, start, accepted, k);
    AcceptProduces(items, p, goal, draws, [], k);
  }

  /** The outfits of a successful run have pairwise different keys. */
  lemma GeneratedKeysDistinct(db: Db, table: seq<Item>, user: int, stackId: int, count: int,
                              style: Option<string>, p: Policy, start: int, draws: seq<Draw>, i: nat, j: nat)
    requires GenerateAndGetOutfits(db, table, user, stackId, count, style, p, start, draws).outcome.GenSuccess?
    requires i < j < |GenerateAndGetOutfits(db, table, user, stackId, count, style, p, start, draws).outcome.data.outfits|
    ensures var os := GenerateAndGetOutfits(db, table, user, stackId, count, style, p, start, draws).outcome.data.outfits;
      Key(os[i].items) != Key(os[j].items)
  {
    var items := Inventory(table, user, style, p);
    var goal := Goal(count, CalculateMaxOutfits(items));
    SuccessStored(db, table, user, stackId, count, style, p, start, draws);
    var accepted := Accept(items, p, goal, draws, []).value;
    AcceptDistinct(items, p, goal, draws, []);
    PersistStored(db, user, stackId, start, accepted);
    StoredRowsAt(user, stackId, start, db.nextOutfit, accepted, i);
    StoredRowsAt(user, stackId, start, db.nextOutfit, accepted, j);
  }

  /** A run fails with a message, and leaves the store alone, in the
      source's order: no items, then no items in the requested categories,
      then no complete outfit. */
  lemma GenerateFailures(db: Db, table: seq<Item>, user: int, stackId: int, count: int,
                         style: Option<string>, p: Policy, start: int, draws: seq<Draw>)
    ensures var r := GenerateAndGetOutfits(db, table, user, stackId, count, style, p, start, draws);
      var fetched := Fetch(table, user, if StyleGiven(style) then style else None);
      var items := Inventory(table, user, style, p);
      && (|fetched| == 0 ==> r.outcome == GenFailure(if StyleGiven(style) then NoItemsForStyles else NoItemsAvailable))
      && (|fetched| > 0 && |items| == 0 ==> r.outcome == GenFailure(NoItemsInCategories))
      && (|items| > 0 && !CheckAvailability(items).puedeGenerarOutfits ==> r.outcome == GenFailure(NoCompatibleItems))
  {
    var fetched := Fetch(table, user, if StyleGiven(style) then style else None);
    var items := Inventory(table, user, style, p);
    if |fetched| == 0 {
      assert |items| == 0;
    }
  }

  /** Once a complete outfit exists, a non-positive count ends in the
      failure that no valid outfit was stored, and a positive count never
      fails. */
  lemma GenerateCountOutcome(db: Db, table: seq<Item>, user: int, stackId: int, count: int,
                             style: Option<string>, p: Policy, start: int, draws: seq<Draw>)
    requires CheckAvailability(Inventory(table, user, style, p)).puedeGenerarOutfits
    ensures var r := GenerateAndGetOutfits(db, table, user, stackId, count, style, p, start, draws);
      && (count <= 0 ==> r.outcome == GenFailure(NoValidOutfits))
      && (count >= 1 ==> !r.outcome.GenFailure?)
  {
    var items := Inventory(table, user, style, p);
    ProduceCount(db, items, user, stackId, count, p, start, draws);
  }

  lemma ProduceCount(db: Db, items: seq<Item>, user: int, stackId: int, count: int, p: Policy,
                     start: int, draws: seq<Draw>)
    requires CheckAvailability(items).puedeGenerarOutfits
    ensures var r := Produce(db, items, user, stackId, count, p, start, draws);
      && (count <= 0 ==> r.outcome == GenFailure(NoValidOutfits))
      && (count >= 1 ==> !r.outcome.GenFailure?)
  {
    MaxOutfitsPositiveWhenGenerable(items);
  }
}
