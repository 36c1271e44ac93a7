/**
 Seller payouts: the handlers of backend/src/controller/seller-payout-controller.ts on top of
 backend/src/service/seller-payout-service.ts. A payout covers a window of time; the guard of the create
 handler keeps the windows of one seller apart, so that no sale is paid out twice.
 */
module SellerPayouts {
  import opened Common
  import opened DecimalText
  import opened Calendar
  import opened Timestamps
  import opened DateRange
  import Q = QueryFilter

  datatype Payout = Payout(requestedBy: nat, startDate: TimeValue, endDate: TimeValue, reference: string,
                           amount: int, transfer: nat)

  /** The two tables, with the next automatic identifiers; a transfer is represented by its amount in cents. */
  datatype Ledger = Ledger(payouts: map<nat, Payout>, transfers: map<nat, int>, nextPayout: nat, nextTransfer: nat)

  datatype Sale = Sale(seller: nat, createdAt: TimeValue, cents: int)

  /** What a request meets: the clock, the users that are not deleted, the sales so far. */
  datatype Env = Env(now: TimeValue, users: set<nat>, sales: seq<Sale>)

  /** A date is None when `new Date(...)` of the request text is the invalid date. */
  datatype Request =
    | Create(requestedById: nat, startDate: Option<TimeValue>, endDate: Option<TimeValue>, reference: string)
    | Update(id: nat, amount: int)
    | Delete(id: nat)

  datatype Refusal =
    | NoSuchUser | InvalidStartDate | InvalidEndDate | EndBeforeStart | StartInFuture | EndInFuture
    | Overlaps(ids: set<nat>)

  datatype Response = Created(id: nat) | Updated | Deleted | NotFound | BadRequest(reason: Refusal)

  // ----- queries

  datatype Filter = Filter(sellerPayoutId: Option<nat>, requestedById: Option<nat>,
                           fromDate: Option<TimeValue>, tillDate: Option<TimeValue>)

  const FILTER_MAPPING: Q.Mapping := [("sellerPayoutId", "id"), ("requestedById", "requestedBy.id")]

  function Params(f: Filter): map<string, string> {
    (match f.sellerPayoutId case Some(id) => map["sellerPayoutId" := Decimal(id)] case None => map[])
    + (match f.requestedById case Some(id) => map["requestedById" := Decimal(id)] case None => map[])
  }

  function AsRow(id: nat, p: Payout): Q.Row {
    map["id" := Q.Field(Decimal(id)), "requestedBy" := Q.Object(map["id" := Q.Field(Decimal(p.requestedBy))])]
  }

  /** `getOptions`: every alternative of the date filter is combined with the where tree. */
  predicate Matches(f: Filter, id: nat, p: Payout) {
    && Q.Satisfies(AsRow(id, p), Q.Compile(FILTER_MAPPING, Params(f)))
    && Selected(CreateFilterWhereDateRange(f.fromDate, f.tillDate),
                ToUtcMySqlString(p.startDate), ToUtcMySqlString(p.endDate))
  }

  function GetSellerPayouts(payouts: map<nat, Payout>, f: Filter): set<nat> {
    set id | id in payouts && Matches(f, id, payouts[id])
  }

  function Overlapping(payouts: map<nat, Payout>, seller: nat, w: Window): set<nat> {
    GetSellerPayouts(payouts, Filter(None, Some(seller), Some(w.start), Some(w.end)))
  }

  function WithId(payouts: map<nat, Payout>, id: nat): set<nat> {
    GetSellerPayouts(payouts, Filter(Some(id), None, None, None))
  }

  predicate TakenBy(s: Sale, seller: nat, w: Window) {
    s.seller == seller && WithinAll(ToUtcMySqlString(s.createdAt), CreateFilterWhereDate(Some(w.start), Some(w.end)))
  }

  /** The total of the sales report over a window. */
  function SalesReport(sales: seq<Sale>, seller: nat, w: Window): int {
    if sales == [] then 0
    else (if TakenBy(sales[0], seller, w) then sales[0].cents else 0) + SalesReport(sales[1..], seller, w)
  }

  // ----- the handlers, as functions on the tables

  function CreateStep(l: Ledger, env: Env, seller: nat, startDate: Option<TimeValue>, endDate: Option<TimeValue>,
                      reference: string): (Ledger, Response)
  {
    if seller !in env.users then (l, BadRequest(NoSuchUser))
    else if startDate.None? then (l, BadRequest(InvalidStartDate))
    else if endDate.None? then (l, BadRequest(InvalidEndDate))
    else
      var (s, e) := (startDate.value, endDate.value);
      if s > e then (l, BadRequest(EndBeforeStart))
      else if s > env.now then (l, BadRequest(StartInFuture))
      else if e > env.now then (l, BadRequest(EndInFuture))
      else
        var found := Overlapping(l.payouts, seller, Window(s, e));
        if found != {} then (l, BadRequest(Overlaps(found)))
        else
          var amount := SalesReport(env.sales, seller, Window(s, e));
          var payout := Payout(seller, s, e, reference, amount, l.nextTransfer);
          (Ledger(l.payouts[l.nextPayout := payout], l.transfers[l.nextTransfer := amount],
                  l.nextPayout + 1, l.nextTransfer + 1),
           Created(l.nextPayout))
  }

  function UpdateStep(l: Ledger, id: nat, amount: int): (Ledger, Response) {
    if id !in l.payouts then (l, NotFound)
    else (l.(payouts := l.payouts[id := l.payouts[id].(amount := amount)],
             transfers := l.transfers[l.payouts[id].transfer := amount]), Updated)
  }

  function DeleteStep(l: Ledger, id: nat): (Ledger, Response) {
    if id !in l.payouts then (l, NotFound)
    else (l.(payouts := l.payouts - {id}, transfers := l.transfers - {l.payouts[id].transfer}), Deleted)
  }

  function Step(l: Ledger, env: Env, req: Request): (Ledger, Response) {
    match req
    case Create(seller, s, e, reference) => CreateStep(l, env, seller, s, e, reference)
    case Update(id, amount) => UpdateStep(l, id, amount)
    case Delete(id) => DeleteStep(l, id)
  }

  /** The controller with the tables it works on. */
  class SellerPayoutController {
    var payouts: map<nat, Payout>
    var transfers: map<nat, int>
    var nextPayout: nat
    var nextTransfer: nat

    ghost function Tables(): Ledger
      reads this
    {
      Ledger(payouts, transfers, nextPayout, nextTransfer)
    }

    constructor ()
      ensures Tables() == Ledger(map[], map[], 0, 0)
    {
      payouts, transfers, nextPayout, nextTransfer := map[], map[], 0, 0;
    }

    method CreateSellerPayout(env: Env, requestedById: nat, startDate: Option<TimeValue>, endDate: Option<TimeValue>,
                              reference: string)
      returns (res: Response)
      modifies this
      ensures (Tables(), res) == CreateStep(old(Tables()), env, requestedById, startDate, endDate, reference)
      ensures res.Created? <==> Acceptable(old(Tables()), env, requestedById, startDate, endDate)
      ensures res.Created? ==>
        exists p :: Adds(old(Tables()), Tables(), env, requestedById, startDate, endDate, reference, p)
      ensures !res.Created? ==>
        Tables() == old(Tables()) && RightlyRefused(old(Tables()), env, requestedById, startDate, endDate, res)
      ensures old(TablesAgree(Tables())) ==> TablesAgree(Tables())
      ensures old(Sound(Tables())) && Admissible(env, Create(requestedById, startDate, endDate, reference)) ==>
        Sound(Tables())
    {
      ghost var req := Create(requestedById, startDate, endDate, reference);
      CreateOutcome(Tables(), env, req);
      if requestedById !in env.users {
        return BadRequest(NoSuchUser);
      }
      if startDate.None? {
        return BadRequest(InvalidStartDate);
      }
      if endDate.None? {
        return BadRequest(InvalidEndDate);
      }
      if startDate.value > endDate.value {
        return BadRequest(EndBeforeStart);
      }
      if startDate.value > env.now {
        return BadRequest(StartInFuture);
      }
      if endDate.value > env.now {
        return BadRequest(EndInFuture);
      }
      var window := Window(startDate.value, endDate.value);
      var requestedByPayouts := Overlapping(payouts, requestedById, window);
      if requestedByPayouts != {} {
        return BadRequest(Overlaps(requestedByPayouts));
      }
      var amount := SalesReport(env.sales, requestedById, window);
      var transfer := nextTransfer;
      transfers, nextTransfer := transfers[transfer := amount], nextTransfer + 1;
      res := Created(nextPayout);
      payouts := payouts[nextPayout := Payout(requestedById, window.start, window.end, reference, amount, transfer)];
      nextPayout := nextPayout + 1;
    }

    method Find(id: nat) returns (found: bool)
      ensures found <==> id in payouts
    {
      FindById(payouts, id);
      found := WithId(payouts, id) != {};
    }

    method UpdateSellerPayout(id: nat, amount: int) returns (res: Response)
      modifies this
      ensures (Tables(), res) == UpdateStep(old(Tables()), id, amount)
      ensures (res == Updated <==> id in old(payouts)) && (res == NotFound <==> id !in old(payouts))
      ensures res == Updated ==>
        && payouts == old(payouts)[id := old(payouts)[id].(amount := amount)]
        && transfers == old(transfers)[old(payouts)[id].transfer := amount]
      ensures res == NotFound ==> payouts == old(payouts) && transfers == old(transfers)
      ensures old(TablesAgree(Tables())) ==> TablesAgree(Tables())
    {
      UpdateKeepsTables(Tables(), id, amount);
      var found := Find(id);
      if !found {
        return NotFound;
      }
      payouts := payouts[id := payouts[id].(amount := amount)];
      transfers := transfers[payouts[id].transfer := amount];
      res := Updated;
    }

    method DeleteSellerPayout(id: nat) returns (res: Response)
      modifies this
      ensures (Tables(), res) == DeleteStep(old(Tables()), id)
      ensures (res == Deleted <==> id in old(payouts)) && (res == NotFound <==> id !in old(payouts))
      ensures res == Deleted ==>
        payouts == old(payouts) - {id} && transfers == old(transfers) - {old(payouts)[id].transfer}
      ensures res == NotFound ==> payouts == old(payouts) && transfers == old(transfers)
      ensures old(TablesAgree(Tables())) ==> TablesAgree(Tables())
    {
      DeleteKeepsTables(Tables(), id);
      var found := Find(id);
      if !found {
        return NotFound;
      }
      var transfer := payouts[id].transfer;
      payouts := payouts - {id};
      transfers := transfers - {transfer};
      res := Deleted;
    }
  }

  // ----- what the queries find

  lemma MappingTargets()
    ensures Q.Target("id") == ["id"] && Q.Target("requestedBy.id") == ["requestedBy", "id"]
    ensures !Q.IsSearch("id") && Q.Split("id") == ["id"] && Q.Split("requestedBy.id") == ["requestedBy", "id"]
  {
    Q.SplitOfPlain("id");
    Q.SplitAtDot("requestedBy", "id");
    assert "requestedBy.id" == "requestedBy" + "." + "id";
  }

  lemma BothHold(row: Q.Row, mapping: Q.Mapping, params: map<string, string>)
    requires |mapping| == 2
    ensures Q.AllHold(row, mapping, params) <==>
      (Q.Defined(mapping, params, 0) ==> Q.HoldsAt(row, mapping, params, 0))
      && (Q.Defined(mapping, params, 1) ==> Q.HoldsAt(row, mapping, params, 1))
  {
  }

  lemma MatchesMeaning(f: Filter, id: nat, p: Payout)
    ensures Q.Satisfies(AsRow(id, p), Q.Compile(FILTER_MAPPING, Params(f))) <==>
      (f.sellerPayoutId.Some? ==> f.sellerPayoutId.value == id)
      && (f.requestedById.Some? ==> f.requestedById.value == p.requestedBy)
  {
    var row, params := AsRow(id, p), Params(f);
    MappingKeys();
    Q.DistinctKeysPreserveMeaning(row, FILTER_MAPPING, params);
    BothHold(row, FILTER_MAPPING, params);
    if f.sellerPayoutId.Some? { IdTest(id, p, f.sellerPayoutId.value); }
    if f.requestedById.Some? { SellerTest(id, p, f.requestedById.value); }
    assert Q.Defined(FILTER_MAPPING, params, 0) <==> f.sellerPayoutId.Some?;
    assert Q.Defined(FILTER_MAPPING, params, 1) <==> f.requestedById.Some?;
  }

  lemma MappingKeys()
    ensures Q.Key(FILTER_MAPPING, 0) != Q.Key(FILTER_MAPPING, 1)
  {
    MappingTargets();
    assert "id"[0] != "requestedBy"[0];
  }

  lemma IdTest(id: nat, p: Payout, wanted: nat)
    ensures Q.Holds(Q.Object(AsRow(id, p)), "id", Decimal(wanted)) <==> wanted == id
  {
    MappingTargets();
    RowValues(id, p);
    DecimalIsInjective(wanted, id);
  }

  lemma SellerTest(id: nat, p: Payout, wanted: nat)
    ensures Q.Holds(Q.Object(AsRow(id, p)), "requestedBy.id", Decimal(wanted)) <==> wanted == p.requestedBy
  {
    MappingTargets();
    RowValues(id, p);
    DecimalIsInjective(wanted, p.requestedBy);
  }

  lemma RowValues(id: nat, p: Payout)
    ensures Q.ValueAt(Q.Object(AsRow(id, p)), ["id"]) == Some(Q.Field(Decimal(id)))
    ensures Q.ValueAt(Q.Object(AsRow(id, p)), ["requestedBy", "id"]) == Some(Q.Field(Decimal(p.requestedBy)))
  {
    assert ["id"][1..] == [] && ["requestedBy", "id"][1..] == ["id"];
    var user := Q.Object(map["id" := Q.Field(Decimal(p.requestedBy))]);
    assert Q.ValueAt(user, ["id"]) == Some(Q.Field(Decimal(p.requestedBy)));
    assert AsRow(id, p)["requestedBy"] == user;
  }

  lemma FindById(payouts: map<nat, Payout>, id: nat)
    ensures WithId(payouts, id) == if id in payouts then {id} else {}
  {
    forall k | k in payouts ensures k in WithId(payouts, id) <==> k == id {
      MatchesMeaning(Filter(Some(id), None, None, None), k, payouts[k]);
    }
  }

  function WindowOf(p: Payout): Window {
    Window(p.startDate, p.endDate)
  }

  /** The query of the create handler finds the payouts of that seller that the date filter selects. */
  lemma FindOverlapping(payouts: map<nat, Payout>, seller: nat, w: Window)
    ensures Overlapping(payouts, seller, w)
      == set id | id in payouts && payouts[id].requestedBy == seller && SelectedBy(WindowOf(payouts[id]), w)
  {
    forall k | k in payouts
      ensures k in Overlapping(payouts, seller, w) <==>
              payouts[k].requestedBy == seller && SelectedBy(WindowOf(payouts[k]), w)
    {
      MatchesMeaning(Filter(None, Some(seller), Some(w.start), Some(w.end)), k, payouts[k]);
    }
  }

  // ----- what one request does

  /** A known user, two dates in order and past, and no payout of the seller that the filter selects. */
  ghost predicate Acceptable(l: Ledger, env: Env, seller: nat, startDate: Option<TimeValue>,
                             endDate: Option<TimeValue>)
  {
    && seller in env.users && startDate.Some? && endDate.Some?
    && startDate.value <= endDate.value <= env.now
    && forall id :: id in l.payouts && l.payouts[id].requestedBy == seller ==>
         !SelectedBy(WindowOf(l.payouts[id]), Window(startDate.value, endDate.value))
  }

  /** One payout `p` more, for the window asked for, with a transfer of its own over what the sales report says. */
  ghost predicate Adds(l: Ledger, after: Ledger, env: Env, seller: nat, startDate: Option<TimeValue>,
                       endDate: Option<TimeValue>, reference: string, p: Payout)
  {
    && startDate.Some? && endDate.Some?
    && p.requestedBy == seller && WindowOf(p) == Window(startDate.value, endDate.value)
    && p.reference == reference && p.transfer == l.nextTransfer
    && p.amount == SalesReport(env.sales, seller, WindowOf(p))
    && after == WithPayout(l, p)
  }

  /** The answer names the first thing that is wrong, and for overlaps exactly the payouts that the filter selects. */
  ghost predicate RightlyRefused(l: Ledger, env: Env, seller: nat, startDate: Option<TimeValue>,
                                 endDate: Option<TimeValue>, res: Response)
  {
    res.BadRequest? &&
    match res.reason
    case NoSuchUser => seller !in env.users
    case InvalidStartDate => seller in env.users && startDate.None?
    case InvalidEndDate => seller in env.users && startDate.Some? && endDate.None?
    case EndBeforeStart =>
      seller in env.users && startDate.Some? && endDate.Some? && endDate.value < startDate.value
    case StartInFuture =>
      seller in env.users && startDate.Some? && endDate.Some? && env.now < startDate.value <= endDate.value
    case EndInFuture =>
      seller in env.users && startDate.Some? && endDate.Some? && startDate.value <= env.now < endDate.value
    case Overlaps(ids) =>
      && seller in env.users && startDate.Some? && endDate.Some?
      && startDate.value <= endDate.value <= env.now && ids != {}
      && forall id :: id in ids <==>
           id in l.payouts && l.payouts[id].requestedBy == seller
           && SelectedBy(WindowOf(l.payouts[id]), Window(startDate.value, endDate.value))
  }

  lemma RefusesRightly(l: Ledger, env: Env, req: Request)
    requires req.Create? && !Step(l, env, req).1.Created?
    ensures RightlyRefused(l, env, req.requestedById, req.startDate, req.endDate, Step(l, env, req).1)
  {
    if req.startDate.Some? && req.endDate.Some? {
      FindOverlapping(l.payouts, req.requestedById, Window(req.startDate.value, req.endDate.value));
    }
  }

  /** All that the create handler promises, in one place. */
  lemma CreateOutcome(l: Ledger, env: Env, req: Request)
    requires req.Create?
    ensures var (after, res) := Step(l, env, req);
            && (res.Created? <==> Acceptable(l, env, req.requestedById, req.startDate, req.endDate))
            && (res.Created? ==> exists p ::
                 Adds(l, after, env, req.requestedById, req.startDate, req.endDate, req.reference, p))
            && (!res.Created? ==>
                 after == l && RightlyRefused(l, env, req.requestedById, req.startDate, req.endDate, res))
            && (TablesAgree(l) ==> TablesAgree(after))
            && (Sound(l) && Admissible(env, req) ==> Sound(after))
  {
    AcceptsExactly(l, env, req);
    StepKeepsSound(l, env, req);
    if Step(l, env, req).1.Created? { CreatedAdds(l, env, req); } else { RefusesRightly(l, env, req); }
  }

  function WithPayout(l: Ledger, p: Payout): Ledger {
    Ledger(l.payouts[l.nextPayout := p], l.transfers[l.nextTransfer := p.amount], l.nextPayout + 1, l.nextTransfer + 1)
  }

  /** For all dates: a payout is created exactly when the request is acceptable; otherwise nothing changes. */
  lemma AcceptsExactly(l: Ledger, env: Env, req: Request)
    requires req.Create?
    ensures Step(l, env, req).1.Created? <==> Acceptable(l, env, req.requestedById, req.startDate, req.endDate)
    ensures !Step(l, env, req).1.Created? ==> Step(l, env, req).0 == l
  {
    if req.startDate.Some? && req.endDate.Some? {
      FoundExactly(l.payouts, req.requestedById, Window(req.startDate.value, req.endDate.value));
    }
  }

  ghost function NewPayout(l: Ledger, env: Env, req: Request): Payout
    requires req.Create? && Step(l, env, req).1.Created?
  {
    Step(l, env, req).0.payouts[l.nextPayout]
  }

  lemma CreatedAdds(l: Ledger, env: Env, req: Request)
    requires req.Create? && Step(l, env, req).1.Created?
    ensures Step(l, env, req).1.id == l.nextPayout
    ensures Adds(l, Step(l, env, req).0, env, req.requestedById, req.startDate, req.endDate, req.reference,
                 NewPayout(l, env, req))
  {
  }

  lemma FoundExactly(payouts: map<nat, Payout>, seller: nat, w: Window)
    ensures Overlapping(payouts, seller, w) == {} <==>
      forall id :: id in payouts && payouts[id].requestedBy == seller ==> !SelectedBy(WindowOf(payouts[id]), w)
  {
    FindOverlapping(payouts, seller, w);
    forall id | id in payouts && payouts[id].requestedBy == seller && SelectedBy(WindowOf(payouts[id]), w)
      ensures id in Overlapping(payouts, seller, w)
    {
    }
  }

  // ----- what every run keeps

  ghost predicate WindowsSound(payouts: map<nat, Payout>) {
    forall id :: id in payouts ==> Ordered(WindowOf(payouts[id])) && WindowInYears(WindowOf(payouts[id]))
  }

  /** No two payouts of one seller overlap. */
  ghost predicate Disjoint(payouts: map<nat, Payout>) {
    forall a, b :: a in payouts && b in payouts && a != b && payouts[a].requestedBy == payouts[b].requestedBy
      ==> !Overlap(WindowOf(payouts[a]), WindowOf(payouts[b]))
  }

  /** Every payout has a transfer of its own with the same amount, and there are no other transfers. */
  ghost predicate TransfersAgree(payouts: map<nat, Payout>, transfers: map<nat, int>) {
    && (forall id :: id in payouts ==>
         payouts[id].transfer in transfers && transfers[payouts[id].transfer] == payouts[id].amount)
    && (forall a, b :: a in payouts && b in payouts && a != b ==> payouts[a].transfer != payouts[b].transfer)
    && (forall t :: t in transfers ==> Owned(payouts, t))
  }

  ghost predicate Owned(payouts: map<nat, Payout>, transfer: nat) {
    exists id :: id in payouts && payouts[id].transfer == transfer
  }

  ghost predicate IdsFresh(l: Ledger) {
    forall id :: id in l.payouts ==> id < l.nextPayout && l.payouts[id].transfer < l.nextTransfer
  }

  /** The two tables are in step. */
  ghost predicate TablesAgree(l: Ledger) {
    TransfersAgree(l.payouts, l.transfers) && IdsFresh(l)
  }

  ghost predicate Sound(l: Ledger) {
    TablesAgree(l) && WindowsSound(l.payouts) && Disjoint(l.payouts)
  }

  /** The clock shows a year up to 9999, and a requested window does not start before the year 0. */
  predicate Admissible(env: Env, req: Request) {
    env.now < YEAR_10000 && (req.Create? && req.startDate.Some? ==> YEAR_0 <= req.startDate.value)
  }

  ghost predicate Free(payouts: map<nat, Payout>, seller: nat, w: Window) {
    forall id :: id in payouts && payouts[id].requestedBy == seller ==> !Overlap(WindowOf(payouts[id]), w)
  }

  /** The guard finds nothing exactly when the window is free. */
  lemma GuardExact(payouts: map<nat, Payout>, seller: nat, w: Window)
    requires WindowsSound(payouts) && Ordered(w) && WindowInYears(w)
    ensures Overlapping(payouts, seller, w) == {} <==> Free(payouts, seller, w)
  {
    FoundExactly(payouts, seller, w);
    forall id | id in payouts ensures SelectedBy(WindowOf(payouts[id]), w) <==> Overlap(WindowOf(payouts[id]), w) {
      FilterFindsOverlaps(WindowOf(payouts[id]), w);
    }
  }

  /** In the years 0 to 9999: when the user exists, the dates are in order and past, and nothing overlaps. */
  lemma CreatesExactly(l: Ledger, env: Env, req: Request)
    requires WindowsSound(l.payouts) && Admissible(env, req) && req.Create?
    ensures Step(l, env, req).1.Created? <==>
      && req.requestedById in env.users
      && req.startDate.Some? && req.endDate.Some?
      && req.startDate.value <= req.endDate.value <= env.now
      && Free(l.payouts, req.requestedById, Window(req.startDate.value, req.endDate.value))
  {
    if req.startDate.Some? && req.endDate.Some? && req.startDate.value <= req.endDate.value <= env.now {
      GuardExact(l.payouts, req.requestedById, Window(req.startDate.value, req.endDate.value));
    }
  }

  lemma AddKeepsDisjoint(payouts: map<nat, Payout>, id: nat, p: Payout)
    requires Disjoint(payouts) && id !in payouts && Free(payouts, p.requestedBy, WindowOf(p))
    ensures Disjoint(payouts[id := p])
  {
    forall k | k in payouts
      ensures Overlap(WindowOf(payouts[k]), WindowOf(p)) <==> Overlap(WindowOf(p), WindowOf(payouts[k]))
    {
      OverlapIsSymmetric(WindowOf(payouts[k]), WindowOf(p));
    }
  }

  lemma AddKeepsTransfers(payouts: map<nat, Payout>, transfers: map<nat, int>, id: nat, p: Payout)
    requires TransfersAgree(payouts, transfers) && id !in payouts && p.transfer !in transfers
    ensures TransfersAgree(payouts[id := p], transfers[p.transfer := p.amount])
  {
    var after := payouts[id := p];
    assert after[id] == p && Owned(after, p.transfer);
    forall t | t in transfers ensures Owned(after, t) {
      var k :| k in payouts && payouts[k].transfer == t;
      assert after[k] == payouts[k];
    }
  }

  lemma NextTransferIsNew(l: Ledger)
    requires TablesAgree(l)
    ensures l.nextTransfer !in l.transfers
  {
  }

  lemma AddKeepsTables(l: Ledger, p: Payout)
    requires TablesAgree(l) && p.transfer == l.nextTransfer
    ensures TablesAgree(WithPayout(l, p))
  {
    NextTransferIsNew(l);
    AddKeepsTransfers(l.payouts, l.transfers, l.nextPayout, p);
  }

  lemma CreateKeepsTables(l: Ledger, env: Env, req: Request)
    requires TablesAgree(l) && req.Create?
    ensures TablesAgree(Step(l, env, req).0)
  {
    AcceptsExactly(l, env, req);
    if Step(l, env, req).1.Created? {
      CreatedAdds(l, env, req);
      AddKeepsTables(l, NewPayout(l, env, req));
    }
  }

  lemma AddKeepsWindows(l: Ledger, p: Payout)
    requires Sound(l) && Ordered(WindowOf(p)) && WindowInYears(WindowOf(p))
    requires Free(l.payouts, p.requestedBy, WindowOf(p))
    ensures WindowsSound(WithPayout(l, p).payouts) && Disjoint(WithPayout(l, p).payouts)
  {
    AddKeepsDisjoint(l.payouts, l.nextPayout, p);
  }

  lemma CreateKeepsSound(l: Ledger, env: Env, req: Request)
    requires Sound(l) && Admissible(env, req) && req.Create?
    ensures Sound(Step(l, env, req).0)
  {
    AcceptsExactly(l, env, req);
    CreatesExactly(l, env, req);
    CreateKeepsTables(l, env, req);
    if Step(l, env, req).1.Created? {
      CreatedAdds(l, env, req);
      AddKeepsWindows(l, NewPayout(l, env, req));
    }
  }

  lemma AmountKeepsTransfers(payouts: map<nat, Payout>, transfers: map<nat, int>, id: nat, amount: int)
    requires TransfersAgree(payouts, transfers) && id in payouts
    ensures TransfersAgree(payouts[id := payouts[id].(amount := amount)], transfers[payouts[id].transfer := amount])
  {
    var after := payouts[id := payouts[id].(amount := amount)];
    forall t | t in transfers ensures Owned(after, t) {
      var k :| k in payouts && payouts[k].transfer == t;
      assert k in after && after[k].transfer == t;
    }
  }

  lemma UpdateKeepsTables(l: Ledger, id: nat, amount: int)
    ensures TablesAgree(l) ==> TablesAgree(UpdateStep(l, id, amount).0)
  {
    if id in l.payouts && TablesAgree(l) {
      AmountKeepsTransfers(l.payouts, l.transfers, id, amount);
    }
  }

  lemma RemoveKeepsTransfers(payouts: map<nat, Payout>, transfers: map<nat, int>, id: nat)
    requires TransfersAgree(payouts, transfers) && id in payouts
    ensures TransfersAgree(payouts - {id}, transfers - {payouts[id].transfer})
  {
    forall t | t in transfers && t != payouts[id].transfer ensures Owned(payouts - {id}, t) {
      var k :| k in payouts && payouts[k].transfer == t;
      assert k in payouts - {id};
    }
  }

  lemma DeleteKeepsTables(l: Ledger, id: nat)
    ensures TablesAgree(l) ==> TablesAgree(DeleteStep(l, id).0)
  {
    if id in l.payouts && TablesAgree(l) {
      RemoveKeepsTransfers(l.payouts, l.transfers, id);
    }
  }

  /** Every request keeps the tables in step; in the years 0 to 9999 it also keeps the windows apart. */
  lemma StepKeepsSound(l: Ledger, env: Env, req: Request)
    ensures TablesAgree(l) ==> TablesAgree(Step(l, env, req).0)
    ensures Sound(l) && Admissible(env, req) ==> Sound(Step(l, env, req).0)
  {
    match req
    case Create(_, _, _, _) =>
      if TablesAgree(l) { CreateKeepsTables(l, env, req); }
      if Sound(l) && Admissible(env, req) { CreateKeepsSound(l, env, req); }
    case Update(id, amount) => UpdateKeepsTables(l, id, amount);
    case Delete(id) => DeleteKeepsTables(l, id);
  }

  /** The tables after a sequence of requests, each with the surroundings it meets. */
  function Run(l: Ledger, requests: seq<(Env, Request)>): Ledger
    decreases |requests|
  {
    if requests == [] then l else Run(Step(l, requests[0].0, requests[0].1).0, requests[1..])
  }

  ghost predicate AllAdmissible(requests: seq<(Env, Request)>) {
    forall i :: 0 <= i < |requests| ==> Admissible(requests[i].0, requests[i].1)
  }

  /** In every run transfers stay in step with payouts; in the years 0 to 9999 the windows of a seller stay apart. */
  lemma {:induction false} RunStaysSound(l: Ledger, requests: seq<(Env, Request)>)
    ensures TablesAgree(l) ==> TablesAgree(Run(l, requests))
    ensures Sound(l) && AllAdmissible(requests) ==> Sound(Run(l, requests))
    decreases |requests|
  {
    if requests != [] {
      StepKeepsSound(l, requests[0].0, requests[0].1);
      RunStaysSound(Step(l, requests[0].0, requests[0].1).0, requests[1..]);
    }
  }

  const EMPTY_TABLES := Ledger(map[], map[], 0, 0)

  lemma EmptyTablesAreSound()
    ensures Sound(EMPTY_TABLES)
  {
  }

  lemma AddThenRemove<V>(m: map<nat, V>, k: nat, v: V)
    requires k !in m
    ensures m[k := v] - {k} == m
  {
  }

  /** Deleting the payout that was just created restores both tables, up to the identifiers used. */
  lemma DeleteUndoesCreate(l: Ledger, env: Env, req: Request)
    requires TablesAgree(l) && req.Create? && Step(l, env, req).1.Created?
    ensures var (m, res) := Step(l, env, req);
            var n := DeleteStep(m, res.id).0;
            n.payouts == l.payouts && n.transfers == l.transfers
  {
    CreatedAdds(l, env, req);
    var p := NewPayout(l, env, req);
    NextTransferIsNew(l);
    AddThenRemove(l.payouts, l.nextPayout, p);
    AddThenRemove(l.transfers, l.nextTransfer, p.amount);
  }

  // ----- no sale is paid out twice

  /** At most one payout of a seller takes a given sale into its report. */
  lemma SaleTakenOnce(l: Ledger, s: Sale, a: nat, b: nat)
    requires Sound(l) && InYears(s.createdAt)
    requires a in l.payouts && b in l.payouts && Takes(l, s, a) && Takes(l, s, b)
    ensures a == b
  {
    ReportTakesHalfOpenWindow(s.createdAt, WindowOf(l.payouts[a]));
    ReportTakesHalfOpenWindow(s.createdAt, WindowOf(l.payouts[b]));
  }

  ghost predicate Stored(l: Ledger, ids: seq<nat>) {
    forall i :: 0 <= i < |ids| ==> ids[i] in l.payouts
  }

  ghost function ReportOf(l: Ledger, sales: seq<Sale>, id: nat): int
    requires id in l.payouts
  {
    SalesReport(sales, l.payouts[id].requestedBy, WindowOf(l.payouts[id]))
  }

  /** The sum of the reports over a list of payouts. */
  ghost function ReportedFor(l: Ledger, sales: seq<Sale>, ids: seq<nat>): int
    requires Stored(l, ids)
  {
    if ids == [] then 0 else ReportOf(l, sales, ids[0]) + ReportedFor(l, sales, ids[1..])
  }

  function SumOfSales(sales: seq<Sale>): int {
    if sales == [] then 0 else sales[0].cents + SumOfSales(sales[1..])
  }

  ghost predicate ProperSales(sales: seq<Sale>) {
    forall i :: 0 <= i < |sales| ==> InYears(sales[i].createdAt) && sales[i].cents >= 0
  }

  lemma ReportOnOne(s: Sale, seller: nat, w: Window)
    ensures SalesReport([s], seller, w) == if TakenBy(s, seller, w) then s.cents else 0
  {
    var none := [s][1..];
    assert none == [] && SalesReport(none, seller, w) == 0;
  }

  lemma ReportSplits(l: Ledger, sales: seq<Sale>, id: nat)
    requires sales != [] && id in l.payouts
    ensures ReportOf(l, sales, id) == ReportOf(l, [sales[0]], id) + ReportOf(l, sales[1..], id)
  {
    ReportOnOne(sales[0], l.payouts[id].requestedBy, WindowOf(l.payouts[id]));
  }

  lemma {:induction false} ReportedForSplits(l: Ledger, sales: seq<Sale>, ids: seq<nat>)
    requires sales != [] && Stored(l, ids)
    ensures ReportedFor(l, sales, ids) == ReportedFor(l, [sales[0]], ids) + ReportedFor(l, sales[1..], ids)
  {
    if ids != [] {
      ReportedForSplits(l, sales, ids[1..]);
      ReportSplits(l, sales, ids[0]);
    }
  }

  ghost predicate Takes(l: Ledger, s: Sale, id: nat)
    requires id in l.payouts
  {
    TakenBy(s, l.payouts[id].requestedBy, WindowOf(l.payouts[id]))
  }

  lemma ReportOfOne(l: Ledger, s: Sale, id: nat)
    requires id in l.payouts
    ensures ReportOf(l, [s], id) == if Takes(l, s, id) then s.cents else 0
  {
    ReportOnOne(s, l.payouts[id].requestedBy, WindowOf(l.payouts[id]));
  }

  lemma {:induction false} OneSaleOnce(l: Ledger, s: Sale, ids: seq<nat>)
    requires Sound(l) && InYears(s.createdAt) && s.cents >= 0 && Distinct(ids) && Stored(l, ids)
    ensures 0 <= ReportedFor(l, [s], ids) <= s.cents
    ensures (forall i :: 0 <= i < |ids| ==> !Takes(l, s, ids[i])) ==> ReportedFor(l, [s], ids) == 0
  {
    if ids != [] {
      var rest := ids[1..];
      ReportOfOne(l, s, ids[0]);
      OneSaleOnce(l, s, rest);
      if Takes(l, s, ids[0]) {
        forall i | 0 <= i < |rest| ensures !Takes(l, s, rest[i]) {
          if Takes(l, s, rest[i]) { SaleTakenOnce(l, s, ids[0], ids[i + 1]); }
        }
      }
    }
  }

  /** The reports over all stored windows together never exceed the sales there are. */
  lemma {:induction false} NoSaleReportedTwice(l: Ledger, sales: seq<Sale>, ids: seq<nat>)
    requires Sound(l) && Distinct(ids) && Stored(l, ids)
    requires ProperSales(sales)
    ensures ReportedFor(l, sales, ids) <= SumOfSales(sales)
  {
    if sales == [] {
      NothingReported(l, ids);
    } else {
      ReportedForSplits(l, sales, ids);
      OneSaleOnce(l, sales[0], ids);
      NoSaleReportedTwice(l, sales[1..], ids);
    }
  }

  lemma {:induction false} NothingReported(l: Ledger, ids: seq<nat>)
    requires Stored(l, ids)
    ensures ReportedFor(l, [], ids) == 0
  {
    if ids != [] { NothingReported(l, ids[1..]); }
  }

  /** What a report takes: the sales of that seller from the start up to before the end of the window. */
  ghost predicate AreReported(amounts: seq<int>, sales: seq<Sale>, seller: nat, w: Window) {
    && |amounts| == |sales|
    && forall i :: 0 <= i < |sales| ==>
         amounts[i] == if sales[i].seller == seller && w.start <= sales[i].createdAt < w.end then sales[i].cents else 0
  }

  function Sum(xs: seq<int>): int {
    if xs == [] then 0 else xs[0] + Sum(xs[1..])
  }

  /** The report is the sum of exactly those: every sale of the seller inside the window is paid, and no other. */
  lemma {:induction false} ReportIsSumInWindow(sales: seq<Sale>, seller: nat, w: Window, amounts: seq<int>)
    requires WindowInYears(w) && forall i :: 0 <= i < |sales| ==> InYears(sales[i].createdAt)
    requires AreReported(amounts, sales, seller, w)
    ensures SalesReport(sales, seller, w) == Sum(amounts)
  {
    if sales != [] {
      FirstAmount(sales[0], seller, w);
      RestOfReported(amounts, sales, seller, w);
      ReportIsSumInWindow(sales[1..], seller, w, amounts[1..]);
    }
  }

  lemma FirstAmount(s: Sale, seller: nat, w: Window)
    requires WindowInYears(w) && InYears(s.createdAt)
    ensures TakenBy(s, seller, w) <==> s.seller == seller && w.start <= s.createdAt < w.end
  {
    ReportTakesHalfOpenWindow(s.createdAt, w);
  }

  lemma RestOfReported(amounts: seq<int>, sales: seq<Sale>, seller: nat, w: Window)
    requires sales != [] && AreReported(amounts, sales, seller, w)
    ensures AreReported(amounts[1..], sales[1..], seller, w)
    ensures var s := sales[0];
            amounts[0] == if s.seller == seller && w.start <= s.createdAt < w.end then s.cents else 0
  {
  }

  /** The amount that a payout is created with. */
  lemma CreatedAmountIsSum(l: Ledger, env: Env, req: Request, amounts: seq<int>)
    requires req.Create? && Step(l, env, req).1.Created? && Admissible(env, req)
    requires forall i :: 0 <= i < |env.sales| ==> InYears(env.sales[i].createdAt)
    requires AreReported(amounts, env.sales, req.requestedById, Window(req.startDate.value, req.endDate.value))
    ensures NewPayout(l, env, req).amount == Sum(amounts)
  {
    AcceptsExactly(l, env, req);
    CreatedAdds(l, env, req);
    ReportIsSumInWindow(env.sales, req.requestedById, Window(req.startDate.value, req.endDate.value), amounts);
  }

  /** A report over more sales is not smaller. */
  lemma {:induction false} ReportGrows(sales: seq<Sale>, more: seq<Sale>, seller: nat, w: Window)
    requires sales <= more && ProperSales(more)
    ensures SalesReport(sales, seller, w) <= SalesReport(more, seller, w)
  {
    if sales == [] {
      ReportNotNegative(more, seller, w);
    } else {
      ReportGrows(sales[1..], more[1..], seller, w);
    }
  }

  lemma {:induction false} ReportNotNegative(sales: seq<Sale>, seller: nat, w: Window)
    requires ProperSales(sales)
    ensures SalesReport(sales, seller, w) >= 0
  {
    if sales != [] { ReportNotNegative(sales[1..], seller, w); }
  }

  /** No payout was fixed at more than its report over all sales. */
  ghost predicate AmountsCovered(l: Ledger, all: seq<Sale>) {
    forall id :: id in l.payouts ==> l.payouts[id].amount <= ReportOf(l, all, id)
  }

  lemma AddKeepsCovered(l: Ledger, p: Payout, sales: seq<Sale>, all: seq<Sale>)
    requires AmountsCovered(l, all) && sales <= all && ProperSales(all)
    requires p.amount == SalesReport(sales, p.requestedBy, WindowOf(p))
    ensures AmountsCovered(WithPayout(l, p), all)
  {
    ReportGrows(sales, all, p.requestedBy, WindowOf(p));
    var m := WithPayout(l, p);
    forall id | id in m.payouts ensures m.payouts[id].amount <= ReportOf(m, all, id) {
      if id != l.nextPayout { assert l.payouts[id].amount <= ReportOf(l, all, id); }
    }
  }

  /** Requests that leave amounts alone and see some of the sales in the order in which they are made. */
  ghost predicate WithoutUpdates(requests: seq<(Env, Request)>, all: seq<Sale>) {
    forall i :: 0 <= i < |requests| ==> !requests[i].1.Update? && requests[i].0.sales <= all
  }

  lemma StepKeepsCovered(l: Ledger, env: Env, req: Request, all: seq<Sale>)
    requires AmountsCovered(l, all) && ProperSales(all) && !req.Update? && env.sales <= all
    ensures AmountsCovered(Step(l, env, req).0, all)
  {
    if req.Create? {
      AcceptsExactly(l, env, req);
      if Step(l, env, req).1.Created? {
        CreatedAdds(l, env, req);
        AddKeepsCovered(l, NewPayout(l, env, req), env.sales, all);
      }
    } else {
      DeleteKeepsCovered(l, req.id, all);
    }
  }

  lemma DeleteKeepsCovered(l: Ledger, id: nat, all: seq<Sale>)
    requires AmountsCovered(l, all)
    ensures AmountsCovered(DeleteStep(l, id).0, all)
  {
    var m := DeleteStep(l, id).0;
    forall k | k in m.payouts ensures m.payouts[k].amount <= ReportOf(m, all, k) {
      assert l.payouts[k].amount <= ReportOf(l, all, k);
    }
  }

  lemma {:induction false} RunKeepsCovered(l: Ledger, requests: seq<(Env, Request)>, all: seq<Sale>)
    requires AmountsCovered(l, all) && ProperSales(all) && WithoutUpdates(requests, all)
    ensures AmountsCovered(Run(l, requests), all)
    decreases |requests|
  {
    if requests != [] {
      StepKeepsCovered(l, requests[0].0, requests[0].1, all);
      RunKeepsCovered(Step(l, requests[0].0, requests[0].1).0, requests[1..], all);
    }
  }

  /** The sum of the amounts that a list of payouts was fixed at. */
  ghost function PaidFor(l: Ledger, ids: seq<nat>): int
    requires Stored(l, ids)
  {
    if ids == [] then 0 else l.payouts[ids[0]].amount + PaidFor(l, ids[1..])
  }

  lemma {:induction false} PaidIsCovered(l: Ledger, all: seq<Sale>, ids: seq<nat>)
    requires AmountsCovered(l, all) && Stored(l, ids)
    ensures PaidFor(l, ids) <= ReportedFor(l, all, ids)
  {
    if ids != [] {
      PaidIsCovered(l, all, ids[1..]);
      assert l.payouts[ids[0]].amount <= ReportOf(l, all, ids[0]);
    }
  }

  /**
   In every run of create and delete requests, while sales keep coming in, the amounts that the stored payouts were
   fixed at when they were created add up to no more than all sales.
   */
  lemma NoSalePaidTwice(requests: seq<(Env, Request)>, all: seq<Sale>, ids: seq<nat>)
    requires AllAdmissible(requests) && WithoutUpdates(requests, all) && ProperSales(all)
    requires Distinct(ids) && Stored(Run(EMPTY_TABLES, requests), ids)
    ensures PaidFor(Run(EMPTY_TABLES, requests), ids) <= SumOfSales(all)
  {
    var l := Run(EMPTY_TABLES, requests);
    EmptyTablesAreSound();
    RunStaysSound(EMPTY_TABLES, requests);
    RunKeepsCovered(EMPTY_TABLES, requests, all);
    PaidIsCovered(l, all, ids);
    NoSaleReportedTwice(l, all, ids);
  }

  // ----- exactly when the windows stay apart

  /** The clock is before `till`, and a requested window does not start before `from`. */
  predicate Between(env: Env, req: Request, from: int, till: int) {
    env.now < till && (req.Create? && req.startDate.Some? ==> from <= req.startDate.value)
  }

  ghost predicate AllBetween(requests: seq<(Env, Request)>, from: int, till: int) {
    forall i :: 0 <= i < |requests| ==> Between(requests[i].0, requests[i].1, from, till)
  }

  /** No run from empty tables within those bounds ever stores two overlapping payouts of one seller. */
  ghost predicate KeptApart(from: int, till: int) {
    forall requests: seq<(Env, Request)> ::
      AllBetween(requests, from, till) ==> Disjoint(Run(EMPTY_TABLES, requests).payouts)
  }

  lemma KeptApartInside(from: int, till: int)
    requires YEAR_0 <= from && till <= YEAR_10000
    ensures KeptApart(from, till)
  {
    forall requests: seq<(Env, Request)> | AllBetween(requests, from, till)
      ensures Disjoint(Run(EMPTY_TABLES, requests).payouts)
    {
      assert AllAdmissible(requests);
      EmptyTablesAreSound();
      RunStaysSound(EMPTY_TABLES, requests);
    }
  }

  /**
   The windows of every seller stay apart in all runs exactly when clocks and start dates are kept within the
   years 0 to 9999: from the start of the year `first`, and before the end of the year `last`.
   */
  lemma KeptApartIff(first: int, last: int)
    requires first <= last && first <= LAST_YEAR && FIRST_YEAR <= last
    ensures KeptApart(NewYear(first), NewYear(last + 1)) <==> 0 <= first && last <= 9999
  {
    if 0 <= first && last <= 9999 {
      NewYearsAscend(0, first);
      NewYearsAscend(last + 1, 10000);
      assert NewYear(0) == YEAR_0 && NewYear(10000) == YEAR_10000;
      KeptApartInside(NewYear(first), NewYear(last + 1));
    } else {
      var v, w := UnnoticedOverlap(first, last);
      OverlapIsStored(v, w, NewYear(first), NewYear(last + 1));
    }
  }

  /** The query for `w` does not find a payout for `v`. */
  ghost predicate Unnoticed(v: Window, w: Window) {
    forall payouts :: AllFor(payouts, v) ==> Overlapping(payouts, 1, w) == {}
  }

  ghost predicate AllFor(payouts: map<nat, Payout>, v: Window) {
    forall id :: id in payouts ==> WindowOf(payouts[id]) == v
  }

  lemma UnnoticedOverlap(first: int, last: int) returns (v: Window, w: Window)
    requires first <= last && first <= LAST_YEAR && FIRST_YEAR <= last && !(0 <= first && last <= 9999)
    ensures NewYear(first) <= w.start < v.start < v.end < w.end < NewYear(last + 1)
    ensures Overlap(v, w) && Unnoticed(v, w)
  {
    var y := YearOutside(first, last);
    NewYearsAscend(first, y);
    NewYearsAscend(y + 1, last + 1);
    v, w := UnnoticedInYear(y);
  }

  lemma UnnoticedInYear(y: int) returns (v: Window, w: Window)
    requires FIRST_YEAR <= y <= LAST_YEAR && !(0 <= y <= 9999)
    ensures NewYear(y) <= w.start < v.start < v.end < w.end < NewYear(y + 1)
    ensures Overlap(v, w) && Unnoticed(v, w)
  {
    v, w := OverlapMissed(y);
    NotSelectedIsUnnoticed(v, w);
  }

  lemma NotSelectedIsUnnoticed(v: Window, w: Window)
    requires !SelectedBy(v, w)
    ensures Unnoticed(v, w)
  {
    forall payouts | AllFor(payouts, v) ensures Overlapping(payouts, 1, w) == {} {
      FoundExactly(payouts, 1, w);
    }
  }

  /** Two requests, both accepted, whose windows overlap. */
  lemma OverlapIsStored(v: Window, w: Window, from: int, till: int)
    requires Overlap(v, w) && Unnoticed(v, w)
    requires from <= w.start < v.start < v.end < w.end < till
    ensures !KeptApart(from, till)
  {
    var a, b, m, n := BothAccepted(EMPTY_TABLES, v, w, from, till);
    RunOfTwo(EMPTY_TABLES, a, b, m, n);
    assert AllBetween([a, b], from, till);
  }

  lemma BothAccepted(l: Ledger, v: Window, w: Window, from: int, till: int)
    returns (a: (Env, Request), b: (Env, Request), m: Ledger, n: Ledger)
    requires l.payouts == map[] && Overlap(v, w) && Unnoticed(v, w)
    requires from <= w.start < v.start < v.end < w.end < till
    ensures Between(a.0, a.1, from, till) && Between(b.0, b.1, from, till)
    ensures Step(l, a.0, a.1).0 == m && Step(m, b.0, b.1).0 == n && !Disjoint(n.payouts)
  {
    var p, q;
    a, p, m := Accepted(l, v, from, till);
    b, q, n := Accepted(m, w, from, till);
    TwoOverlap(n.payouts, l.nextPayout, m.nextPayout);
  }

  lemma RunOfTwo(l: Ledger, a: (Env, Request), b: (Env, Request), m: Ledger, n: Ledger)
    requires Step(l, a.0, a.1).0 == m && Step(m, b.0, b.1).0 == n
    ensures Run(l, [a, b]) == n
  {
    var requests, rest := [a, b], [b];
    assert requests[1..] == rest && rest[1..] == [];
    assert Run(l, requests) == Run(m, rest);
    assert Run(m, rest) == Run(n, []);
  }

  /** A request whose window the query does not find is accepted, and it alone changes the tables. */
  lemma Accepted(l: Ledger, w: Window, from: int, till: int) returns (a: (Env, Request), p: Payout, m: Ledger)
    requires from <= w.start <= w.end < till && Overlapping(l.payouts, 1, w) == {}
    ensures Between(a.0, a.1, from, till) && Step(l, a.0, a.1).0 == m
    ensures m.payouts == l.payouts[l.nextPayout := p] && m.nextPayout == l.nextPayout + 1
    ensures p.requestedBy == 1 && WindowOf(p) == w
  {
    a := (Env(w.end, {1}, []), Create(1, Some(w.start), Some(w.end), ""));
    m, p := Step(l, a.0, a.1).0, NewPayout(l, a.0, a.1);
  }

  lemma TwoOverlap(payouts: map<nat, Payout>, a: nat, b: nat)
    requires a in payouts && b in payouts && a != b && payouts[a].requestedBy == payouts[b].requestedBy
    requires Overlap(WindowOf(payouts[a]), WindowOf(payouts[b]))
    ensures !Disjoint(payouts)
  {
  }
}
