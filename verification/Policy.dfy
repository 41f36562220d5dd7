/** Policy configuration: what Validate accepts, and what Resolve answers from it. */
module Policy {
  import opened Sorting
  import Gcra

  type Instant = Gcra.Instant
  const DAY: int := 1440 * Gcra.MINUTE

  type Offset = n: nat | n < DAY

  /** "HH:MM" and "YYYY-MM-DD" fields, as the parser leaves them. */
  datatype TimeOfDay = Unparseable | At(offset: Offset)
  datatype Expiry = Missing | Garbled | On(day: nat)

  datatype DailyWindow = DailyWindow(start: TimeOfDay, end: TimeOfDay, graceMinutes: int)

  datatype Override = Override(customer: string, limitRpm: int, window: DailyWindow, expires: Expiry,
                               ticket: string, reason: string, expiresAt: Instant)

  datatype Customer = Customer(id: string, tier: string, limitRpm: int)

  type Tiers = map<string, int>

  datatype Option<T> = None | Some(value: T)

  // ----- what the checks mean -----

  function ContractedLimit(tiers: Tiers, c: Customer): int {
    if c.limitRpm != 0 then c.limitRpm else if c.tier in tiers then tiers[c.tier] else 0
  }

  /** A named customer on a known tier, with exactly one of the two limits set. */
  ghost predicate CustomerOk(tiers: Tiers, c: Customer) {
    && c.id != "" && c.tier in tiers && tiers[c.tier] >= 0 && c.limitRpm >= 0
    && (tiers[c.tier] == 0 <==> c.limitRpm != 0)
  }

  ghost predicate CustomersOk(tiers: Tiers, customers: seq<Customer>) {
    && tiers != map[]
    && (forall i :: 0 <= i < |customers| ==> CustomerOk(tiers, customers[i]))
    && (forall i, j :: 0 <= i < j < |customers| ==> customers[i].id != customers[j].id)
  }

  /** A raise, with an owner, a paper trail, an unexpired end and a daytime window. */
  ghost predicate OverrideOk(tiers: Tiers, customers: seq<Customer>, o: Override, now: Instant) {
    && o.customer != ""
    && Raises(tiers, customers, o)
    && o.limitRpm > 0
    && o.ticket != "" && o.reason != ""
    && o.expires.On? && now < o.expires.day * DAY
    && WindowOk(o.window)
  }

  ghost predicate NamesCustomer(customers: seq<Customer>, o: Override) {
    exists c :: c in customers && c.id == o.customer
  }

  ghost predicate Raises(tiers: Tiers, customers: seq<Customer>, o: Override) {
    exists c :: c in customers && c.id == o.customer && ContractedLimit(tiers, c) < o.limitRpm
  }

  predicate WindowOk(w: DailyWindow) {
    w.start.At? && w.end.At? && w.start.offset < w.end.offset && w.graceMinutes >= 0
  }

  function EndWithGrace(w: DailyWindow): int
    requires w.end.At?
  {
    w.end.offset + w.graceMinutes * Gcra.MINUTE
  }

  predicate Overlap(w: DailyWindow, v: DailyWindow)
    requires WindowOk(w) && WindowOk(v)
  {
    w.start.offset < EndWithGrace(v) && v.start.offset < EndWithGrace(w)
  }

  ghost predicate OverridesOk(tiers: Tiers, customers: seq<Customer>, overrides: seq<Override>, now: Instant) {
    forall i :: 0 <= i < |overrides| ==> OverrideOk(tiers, customers, overrides[i], now)
  }

  ghost predicate Ambiguous(overrides: seq<Override>, i: int, j: int) {
    && 0 <= i < j < |overrides| && overrides[i].customer == overrides[j].customer
    && WindowOk(overrides[i].window) && WindowOk(overrides[j].window)
    && Overlap(overrides[i].window, overrides[j].window)
  }

  ghost predicate Accepted(tiers: Tiers, customers: seq<Customer>, overrides: seq<Override>, now: Instant) {
    && CustomersOk(tiers, customers)
    && OverridesOk(tiers, customers, overrides, now)
    && forall i, j :: !Ambiguous(overrides, i, j)
  }

  /** The expiry instants that Validate parses into the overrides. */
  function Stamped(o: Override): Override {
    if o.expires.On? then o.(expiresAt := o.expires.day * DAY) else o
  }

  function StampedAll(overrides: seq<Override>): (s: seq<Override>)
    ensures |s| == |overrides|
  {
    seq(|overrides|, i requires 0 <= i < |overrides| => Stamped(overrides[i]))
  }

  // ----- Validate -----

  datatype Fault =
    | NoFault
    | NoTiers
    | NoId | DuplicateId | UndefinedTier | NegativeRpm | NegativeLimit | NoLimit | TwoLimits
    | NoCustomer | UnconfiguredCustomer | NoTicket | NoReason | NoExpiry | BadExpiry | Expired
    | NonPositive | NotARaise | BadStart | BadEnd | EndNotAfterStart | NegativeGrace
    | Overlapping(customer: string)

  /** What a fault says of a customer. */
  predicate CustomerComplaint(fault: Fault, tiers: Tiers, c: Customer) {
    match fault
    case NoId => c.id == ""
    case UndefinedTier => c.tier !in tiers
    case NegativeRpm => c.tier in tiers && tiers[c.tier] < 0
    case NegativeLimit => c.limitRpm < 0
    case NoLimit => c.tier in tiers && tiers[c.tier] == 0 && c.limitRpm == 0
    case TwoLimits => c.tier in tiers && tiers[c.tier] != 0 && c.limitRpm != 0
    case _ => false
  }

  /** What a fault says of an override. */
  ghost predicate OverrideComplaint(fault: Fault, tiers: Tiers, customers: seq<Customer>, o: Override, now: Instant) {
    match fault
    case NoCustomer => o.customer == ""
    case UnconfiguredCustomer => forall k :: 0 <= k < |customers| ==> customers[k].id != o.customer
    case NoTicket => o.ticket == ""
    case NoReason => o.reason == ""
    case NoExpiry => o.expires.Missing?
    case BadExpiry => o.expires.Garbled?
    case Expired => o.expires.On? && o.expires.day * DAY <= now
    case NonPositive => o.limitRpm <= 0
    case NotARaise =>
      exists k :: 0 <= k < |customers| && customers[k].id == o.customer && customers[k].tier in tiers
                  && o.limitRpm <=
                       if customers[k].limitRpm != 0 then customers[k].limitRpm else tiers[customers[k].tier]
    case BadStart => o.window.start.Unparseable?
    case BadEnd => o.window.end.Unparseable?
    case EndNotAfterStart => o.window.start.At? && o.window.end.At? && o.window.end.offset <= o.window.start.offset
    case NegativeGrace => o.window.graceMinutes < 0
    case _ => false
  }

  /** A fault is a true complaint about the configuration. */
  ghost predicate TrueFault(fault: Fault, tiers: Tiers, customers: seq<Customer>, overrides: seq<Override>,
                            now: Instant) {
    match fault
    case NoFault => true
    case NoTiers => tiers == map[]
    case DuplicateId => exists i, j :: 0 <= i < j < |customers| && customers[i].id == customers[j].id
    case Overlapping(c) => exists i, j :: Ambiguous(overrides, i, j) && overrides[i].customer == c
    case _ =>
      || (exists i :: 0 <= i < |customers| && CustomerComplaint(fault, tiers, customers[i]))
      || (exists i :: 0 <= i < |overrides| && OverrideComplaint(fault, tiers, customers, overrides[i], now))
  }

  class Config {
    const tiers: Tiers
    const customers: seq<Customer>
    var overrides: seq<Override>

    constructor (tiers: Tiers, customers: seq<Customer>, overrides: seq<Override>)
      ensures this.tiers == tiers && this.customers == customers && this.overrides == overrides
    {
      this.tiers, this.customers, this.overrides := tiers, customers, overrides;
    }

    /** Accepts exactly the acceptable configurations, and reports an overlap only once
        every other check has passed. */
    method Validate(now: Instant) returns (fault: Fault)
      modifies this`overrides
      ensures fault.NoFault? <==> Accepted(tiers, customers, old(overrides), now)
      ensures fault.NoFault? ==> overrides == StampedAll(old(overrides))
      ensures fault.Overlapping? <==>
        && CustomersOk(tiers, customers) && OverridesOk(tiers, customers, old(overrides), now)
        && exists i, j :: Ambiguous(old(overrides), i, j)
      ensures TrueFault(fault, tiers, customers, old(overrides), now)
    {
      if tiers == map[] { return NoTiers; }
      var byId;
      fault, byId := ValidateCustomers();
      if !fault.NoFault? { return; }
      fault := ValidateOverrides(byId, now);
      if !fault.NoFault? { return; }
      fault := ValidateWindows();
      assert forall i, j :: Ambiguous(old(overrides), i, j) <==> Ambiguous(overrides, i, j);
    }

    method ValidateCustomers() returns (fault: Fault, byId: map<string, Customer>)
      requires tiers != map[]
      ensures fault.NoFault? <==> CustomersOk(tiers, customers)
      ensures !fault.Overlapping? && TrueFault(fault, tiers, customers, [], 0)
      ensures fault.NoFault? ==> IsIndex(byId, customers)
    {
      byId := map[];
      for i := 0 to |customers|
        invariant IsIndex(byId, customers[..i])
        invariant CustomersOk(tiers, customers[..i])
      {
        var cust := customers[i];
        if cust.id == "" { return NoId, byId; }
        if cust.id in byId {
          assert byId[cust.id] in customers[..i] && customers[i] == cust;
          return DuplicateId, byId;
        }
        fault := LimitFault(cust);
        if !fault.NoFault? { return; }
        AddToIndex(byId, customers[..i], cust);
        assert customers[..i + 1] == customers[..i] + [cust];
        byId := byId[cust.id := cust];
      }
      assert customers[..|customers|] == customers;
      fault := NoFault;
    }

    method LimitFault(cust: Customer) returns (fault: Fault)
      requires cust.id != ""
      ensures fault.NoFault? <==> CustomerOk(tiers, cust)
      ensures !fault.NoFault? ==> CustomerComplaint(fault, tiers, cust)
    {
      if cust.tier !in tiers { return UndefinedTier; }
      if tiers[cust.tier] < 0 { return NegativeRpm; }
      if cust.limitRpm < 0 { return NegativeLimit; }
      if tiers[cust.tier] == 0 && cust.limitRpm == 0 { return NoLimit; }
      if tiers[cust.tier] != 0 && cust.limitRpm != 0 { return TwoLimits; }
      fault := NoFault;
    }

    method ValidateOverrides(byId: map<string, Customer>, now: Instant) returns (fault: Fault)
      requires CustomersOk(tiers, customers) && IsIndex(byId, customers)
      modifies this`overrides
      ensures fault.NoFault? <==> OverridesOk(tiers, customers, old(overrides), now)
      ensures !fault.Overlapping? && TrueFault(fault, tiers, customers, old(overrides), now)
      ensures fault.NoFault? ==> overrides == StampedAll(old(overrides))
    {
      ghost var given := overrides;
      for i := 0 to |overrides|
        invariant |overrides| == |given|
        invariant forall k :: 0 <= k < |given| ==> overrides[k] == if k < i then Stamped(given[k]) else given[k]
        invariant forall k :: 0 <= k < i ==> OverrideOk(tiers, customers, given[k], now)
      {
        var o := overrides[i];
        fault := OverrideFault(o, byId, now);
        if !fault.NoFault? { return; }
        overrides := overrides[i := o.(expiresAt := o.expires.day * DAY)];
      }
      fault := NoFault;
    }

    method OverrideFault(o: Override, byId: map<string, Customer>, now: Instant) returns (fault: Fault)
      requires CustomersOk(tiers, customers) && IsIndex(byId, customers)
      ensures fault.NoFault? <==> OverrideOk(tiers, customers, o, now)
      ensures !fault.NoFault? ==> OverrideComplaint(fault, tiers, customers, o, now)
    {
      if o.customer == "" { return NoCustomer; }
      if o.customer !in byId { return UnconfiguredCustomer; }
      if o.ticket == "" { return NoTicket; }
      if o.reason == "" { return NoReason; }
      if o.expires.Missing? { return NoExpiry; }
      if o.expires.Garbled? { return BadExpiry; }
      if !(o.expires.day * DAY > now) { return Expired; }
      if o.limitRpm <= 0 { return NonPositive; }
      IndexIsUnique(byId, customers, o.customer);
      if o.limitRpm <= ContractedLimit(tiers, byId[o.customer]) { return NotARaise; }
      if o.window.start.Unparseable? { return BadStart; }
      if o.window.end.Unparseable? { return BadEnd; }
      if o.window.end.offset <= o.window.start.offset { return EndNotAfterStart; }
      if o.window.graceMinutes < 0 { return NegativeGrace; }
      fault := NoFault;
    }

    /** The pairwise loops, over each customer's windows; customers come in map order. */
    method ValidateWindows() returns (fault: Fault)
      requires forall i :: 0 <= i < |overrides| ==> WindowOk(overrides[i].window)
      ensures fault.NoFault? || fault.Overlapping?
      ensures fault.NoFault? <==> forall i, j :: !Ambiguous(overrides, i, j)
      ensures fault.Overlapping? ==>
        exists i, j :: Ambiguous(overrides, i, j) && 0 <= i < |overrides| && overrides[i].customer == fault.customer
    {
      hide Grouped, Ambiguous;
      var byCustomer;
      ghost var places;
      byCustomer, places := GroupWindows();
      var todo := byCustomer.Keys;
      GroupedCoversAll(byCustomer, places, overrides);
      while todo != {}
        invariant todo <= byCustomer.Keys
        invariant forall i, j :: Ambiguous(overrides, i, j) ==> 0 <= i < |overrides| && overrides[i].customer in todo
        decreases todo
      {
        var customer :| customer in todo;
        var windows := byCustomer[customer];
        var clash, k, l := AnyOverlap(windows);
        if clash {
          ClashIsAmbiguous(byCustomer, places, overrides, customer, k, l);
          return Overlapping(customer);
        }
        NoClashNotAmbiguous(byCustomer, places, overrides, customer);
        todo := todo - {customer};
      }
      fault := NoFault;
    }

    method GroupWindows() returns (byCustomer: map<string, seq<Span>>, ghost places: map<string, seq<nat>>)
      requires forall i :: 0 <= i < |overrides| ==> WindowOk(overrides[i].window)
      ensures Grouped(byCustomer, places, overrides)
    {
      hide Grouped, EndWithGrace;
      byCustomer, places := map[], map[];
      NothingGrouped(overrides[..0]);
      for i := 0 to |overrides|
        invariant Grouped(byCustomer, places, overrides[..i])
      {
        var o := overrides[i];
        var span := Span(o.window.start.offset, EndWithGrace(o.window));
        var windows := if o.customer in byCustomer then byCustomer[o.customer] else [];
        ghost var at := if o.customer in places then places[o.customer] else [];
        GroupOneMore(byCustomer, places, overrides[..i], o);
        assert overrides[..i + 1] == overrides[..i] + [o];
        byCustomer, places := byCustomer[o.customer := windows + [span]], places[o.customer := at + [i]];
      }
      assert overrides[..|overrides|] == overrides;
    }
  }

  datatype Span = Span(start: int, end: int)

  predicate Clash(a: Span, b: Span) { a.start < b.end && b.start < a.end }

  method AnyOverlap(windows: seq<Span>) returns (clash: bool, k: nat, l: nat)
    ensures clash ==> k < l < |windows| && Clash(windows[k], windows[l])
    ensures !clash ==> forall i, j :: 0 <= i < j < |windows| ==> !Clash(windows[i], windows[j])
  {
    for i := 0 to |windows|
      invariant forall p, q :: 0 <= p < i && p < q < |windows| ==> !Clash(windows[p], windows[q])
    {
      for j := i + 1 to |windows|
        invariant forall q :: i < q < j ==> !Clash(windows[i], windows[q])
      {
        if windows[i].start < windows[j].end && windows[j].start < windows[i].end {
          return true, i, j;
        }
      }
    }
    return false, 0, 0;
  }

  /** One customer's windows in list order, and the places they came from. */
  ghost predicate GroupOf(c: string, spans: seq<Span>, at: seq<nat>, overrides: seq<Override>) {
    && |at| == |spans|
    && (forall k :: 0 <= k < |at| ==> IsSpanOf(c, spans[k], at[k], overrides))
    && (forall k, l :: 0 <= k < l < |at| ==> at[k] < at[l])
  }

  ghost predicate IsSpanOf(c: string, span: Span, place: nat, overrides: seq<Override>) {
    && place < |overrides| && overrides[place].customer == c && WindowOk(overrides[place].window)
    && span == Span(overrides[place].window.start.offset, EndWithGrace(overrides[place].window))
  }

  ghost predicate Grouped(byCustomer: map<string, seq<Span>>, places: map<string, seq<nat>>, overrides: seq<Override>) {
    && byCustomer.Keys == places.Keys
    && (forall i :: 0 <= i < |overrides| ==>
          overrides[i].customer in places && i in places[overrides[i].customer])
    && (forall c :: c in places ==> GroupOf(c, byCustomer[c], places[c], overrides))
  }

  lemma GroupedCoversAll(byCustomer: map<string, seq<Span>>, places: map<string, seq<nat>>, overrides: seq<Override>)
    requires Grouped(byCustomer, places, overrides)
    ensures forall i, j :: Ambiguous(overrides, i, j) ==> overrides[i].customer in byCustomer.Keys
    ensures forall i, j :: Ambiguous(overrides, i, j) ==> 0 <= i < |overrides|
  {
  }

  lemma ClashIsAmbiguous(byCustomer: map<string, seq<Span>>, places: map<string, seq<nat>>, overrides: seq<Override>,
                         customer: string, k: nat, l: nat)
    requires Grouped(byCustomer, places, overrides) && customer in byCustomer
    requires k < l < |byCustomer[customer]| && Clash(byCustomer[customer][k], byCustomer[customer][l])
    ensures Ambiguous(overrides, places[customer][k], places[customer][l])
    ensures places[customer][k] < |overrides| && overrides[places[customer][k]].customer == customer
  {
  }

  lemma NoClashNotAmbiguous(byCustomer: map<string, seq<Span>>, places: map<string, seq<nat>>, overrides: seq<Override>,
                            customer: string)
    requires Grouped(byCustomer, places, overrides) && customer in byCustomer
    requires var windows := byCustomer[customer];
      forall k, l :: 0 <= k < l < |windows| ==> !Clash(windows[k], windows[l])
    ensures forall i, j :: Ambiguous(overrides, i, j) ==> 0 <= i < |overrides| && overrides[i].customer != customer
  {
  }

  lemma NothingGrouped(overrides: seq<Override>)
    requires overrides == []
    ensures Grouped(map[], map[], overrides)
  {
  }

  lemma GroupOneMore(byCustomer: map<string, seq<Span>>, places: map<string, seq<nat>>, overrides: seq<Override>,
                     o: Override)
    requires Grouped(byCustomer, places, overrides) && WindowOk(o.window)
    ensures
      var span := Span(o.window.start.offset, EndWithGrace(o.window));
      var windows := if o.customer in byCustomer then byCustomer[o.customer] else [];
      var at := if o.customer in places then places[o.customer] else [];
      Grouped(byCustomer[o.customer := windows + [span]], places[o.customer := at + [|overrides|]], overrides + [o])
  {
    var at := if o.customer in places then places[o.customer] else [];
    var windows := if o.customer in byCustomer then byCustomer[o.customer] else [];
    var span := Span(o.window.start.offset, EndWithGrace(o.window));
    var places', overrides' := places[o.customer := at + [|overrides|]], overrides + [o];
    forall c | c in places' ensures GroupOf(c, byCustomer[o.customer := windows + [span]][c], places'[c], overrides') {
      if c == o.customer { GroupExtended(c, windows, at, overrides, o); }
      else { GroupKept(c, byCustomer[c], places[c], overrides, o); }
    }
    forall j | 0 <= j < |overrides'| ensures overrides'[j].customer in places' && j in places'[overrides'[j].customer] {
      if j == |overrides| { assert places'[o.customer][|at|] == j; }
      else if overrides[j].customer == o.customer { assert j in at; }
    }
  }

  lemma GroupKept(c: string, spans: seq<Span>, at: seq<nat>, overrides: seq<Override>, o: Override)
    requires GroupOf(c, spans, at, overrides)
    ensures GroupOf(c, spans, at, overrides + [o])
  {
    forall k | 0 <= k < |at| ensures IsSpanOf(c, spans[k], at[k], overrides + [o]) {
      assert IsSpanOf(c, spans[k], at[k], overrides);
    }
  }

  lemma GroupExtended(c: string, spans: seq<Span>, at: seq<nat>, overrides: seq<Override>, o: Override)
    requires c == o.customer && WindowOk(o.window)
    requires GroupOf(c, spans, at, overrides)
    ensures GroupOf(c, spans + [Span(o.window.start.offset, EndWithGrace(o.window))], at + [|overrides|],
                    overrides + [o])
  {
    GroupKept(c, spans, at, overrides, o);
    var spans', at' := spans + [Span(o.window.start.offset, EndWithGrace(o.window))], at + [|overrides|];
    forall k | 0 <= k < |at'| ensures IsSpanOf(c, spans'[k], at'[k], overrides + [o]) {
      if k < |at| { assert IsSpanOf(c, spans[k], at[k], overrides + [o]); }
    }
    forall k, l | 0 <= k < l < |at'| ensures at'[k] < at'[l] {
      if l == |at| { assert IsSpanOf(c, spans[k], at[k], overrides); }
    }
  }

  /** The index built from the customer list: their ids, and a customer under each. */
  ghost predicate IsIndex(byId: map<string, Customer>, customers: seq<Customer>) {
    && (forall i :: 0 <= i < |customers| ==> customers[i].id in byId)
    && (forall id :: id in byId ==> byId[id].id == id && byId[id] in customers)
  }

  lemma AddToIndex(byId: map<string, Customer>, customers: seq<Customer>, c: Customer)
    requires IsIndex(byId, customers) && c.id !in byId
    ensures IsIndex(byId[c.id := c], customers + [c])
    ensures forall i :: 0 <= i < |customers| ==> customers[i].id != c.id
  {
    assert (customers + [c])[|customers|] == c;
    assert forall x :: x in customers ==> x in customers + [c];
  }

  lemma IndexIsUnique(byId: map<string, Customer>, customers: seq<Customer>, id: string)
    requires IsIndex(byId, customers) && id in byId
    requires forall i, j :: 0 <= i < j < |customers| ==> customers[i].id != customers[j].id
    ensures forall c :: c in customers && c.id == id ==> c == byId[id]
  {
  }

  // ----- Resolve -----

  datatype Reason = TierDefault | OverrideApplied | UnknownCustomer
  datatype Decision = Decision(limit: int, reason: Reason)

  /** Unexpired, and inside the day's window plus grace.  Grace that would run past
      midnight is cut off there, since the window is that of the instant's own date. */
  predicate ActiveAt(o: Override, now: Instant)
    requires WindowOk(o.window)
  {
    var startOfDay := now / DAY * DAY;
    now < o.expiresAt && startOfDay + o.window.start.offset <= now < startOfDay + EndWithGrace(o.window)
  }

  predicate WindowsOk(overrides: seq<Override>) {
    forall i :: 0 <= i < |overrides| ==> WindowOk(overrides[i].window)
  }

  function Lookup(customers: seq<Customer>, id: string): Option<Customer> {
    if customers == [] then None
    else if customers[0].id == id then Some(customers[0])
    else Lookup(customers[1..], id)
  }

  /** The first active override of the customer, in list order. */
  function FirstActive(overrides: seq<Override>, customer: string, now: Instant): Option<Override>
    requires WindowsOk(overrides)
  {
    if overrides == [] then None
    else if overrides[0].customer == customer && ActiveAt(overrides[0], now) then Some(overrides[0])
    else FirstActive(overrides[1..], customer, now)
  }

  function Resolved(tiers: Tiers, customers: seq<Customer>, overrides: seq<Override>,
                    id: string, now: Instant): Decision
    requires WindowsOk(overrides)
  {
    match Lookup(customers, id)
    case None => Decision(0, UnknownCustomer)
    case Some(c) =>
      match FirstActive(overrides, id, now)
      case Some(o) => Decision(o.limitRpm, OverrideApplied)
      case None => Decision(ContractedLimit(tiers, c), TierDefault)
  }

  /** An accepted configuration, as it is served. */
  ghost predicate Serving(tiers: Tiers, customers: seq<Customer>, overrides: seq<Override>) {
    exists given, now :: Accepted(tiers, customers, given, now) && overrides == StampedAll(given)
  }

  /** The override is active once Validate has stamped it: unexpired by the date in the
      file, and the time of day in its window or in the minutes of grace after it. */
  predicate InForce(o: Override, now: Instant)
    ensures InForce(o, now) <==>
      && o.expires.On? && now < o.expires.day * 86_400_000_000_000
      && o.window.start.At? && o.window.end.At? && o.window.graceMinutes >= 0
      && o.window.start.offset < o.window.end.offset
      && o.window.start.offset <= now % 86_400_000_000_000
      && now % 86_400_000_000_000 < o.window.end.offset + o.window.graceMinutes * 60_000_000_000
  {
    assert now == now / DAY * DAY + now % DAY;
    o.expires.On? && WindowOk(o.window) && ActiveAt(Stamped(o), now)
  }

  /** Resolve's answer for a customer of an accepted configuration, by the file alone: the
      limit of the override in force, or else the customer's own limit where it has one and
      its tier's where it has none. */
  lemma ResolvedAsGiven(tiers: Tiers, customers: seq<Customer>, given: seq<Override>, loaded: Instant, k: nat,
                        now: Instant)
    requires Accepted(tiers, customers, given, loaded) && k < |customers|
    ensures WindowsOk(StampedAll(given))
    ensures
      var d := Resolved(tiers, customers, StampedAll(given), customers[k].id, now);
      && (forall i :: 0 <= i < |given| && given[i].customer == customers[k].id && InForce(given[i], now) ==>
            d == Decision(given[i].limitRpm, OverrideApplied))
      && ((forall i :: 0 <= i < |given| && given[i].customer == customers[k].id ==> !InForce(given[i], now)) ==>
            && (customers[k].limitRpm != 0 ==> d == Decision(customers[k].limitRpm, TierDefault))
            && (customers[k].limitRpm == 0 ==>
                  customers[k].tier in tiers && d == Decision(tiers[customers[k].tier], TierDefault)))
  {
    hide ActiveAt;
    var served, id := StampedAll(given), customers[k].id;
    forall i | 0 <= i < |given|
      ensures WindowOk(served[i].window) && (ActiveAt(served[i], now) <==> InForce(given[i], now))
    {
      assert OverrideOk(tiers, customers, given[i], loaded);
    }
    assert CustomerOk(tiers, customers[k]);
    LookupUnique(customers, customers[k]);
    var f := FirstActiveFound(served, id, now);
    forall i | 0 <= i < |given| && given[i].customer == id && InForce(given[i], now)
      ensures FirstActive(served, id, now) == Some(served[i])
    {
      assert Serving(tiers, customers, served);
      AtMostOneActive(tiers, customers, served, i, f, now);
    }
  }

  lemma UnknownResolves(tiers: Tiers, customers: seq<Customer>, overrides: seq<Override>, id: string, now: Instant)
    requires WindowsOk(overrides)
    ensures (forall k :: 0 <= k < |customers| ==> customers[k].id != id) ==>
      Resolved(tiers, customers, overrides, id, now) == Decision(0, UnknownCustomer)
  {
    LookupFound(customers, id);
  }

  lemma OverrideNames(tiers: Tiers, customers: seq<Customer>, given: seq<Override>, loaded: Instant, i: nat)
    returns (k: nat)
    requires Accepted(tiers, customers, given, loaded) && i < |given|
    ensures k < |customers| && customers[k].id == given[i].customer
  {
    assert OverrideOk(tiers, customers, given[i], loaded);
    var c :| c in customers && c.id == given[i].customer;
    k :| 0 <= k < |customers| && customers[k] == c;
  }

  class Resolver {
    var cfg: Config?
    ghost var given: seq<Override>  // the overrides of the file being served

    constructor ()
      ensures cfg == null
    {
      cfg := null;
      given := [];
    }

    /** What is served is an accepted configuration, as Validate left it. */
    ghost predicate Serves()
      reads this, cfg
    {
      cfg != null && cfg.overrides == StampedAll(given)
      && exists now :: Accepted(cfg.tiers, cfg.customers, given, now)
    }

    /** The loaded configuration is swapped in only if it validates; a failed load or
        validation keeps the one being served. */
    method Reload(loaded: Config?, now: Instant) returns (ok: bool)
      modifies this, loaded
      ensures ok <==> loaded != null && Accepted(loaded.tiers, loaded.customers, old(loaded.overrides), now)
      ensures cfg == if ok then loaded else old(cfg)
      ensures ok ==> cfg.overrides == StampedAll(old(loaded.overrides))
      ensures ok ==> Serving(cfg.tiers, cfg.customers, cfg.overrides)
      ensures ok ==> Serves() && given == old(loaded.overrides)
      ensures !ok && loaded != old(cfg) && old(Serves()) ==> Serves() && given == old(given)
    {
      if loaded == null { return false; }
      ghost var before := loaded.overrides;
      var fault := loaded.Validate(now);
      if !fault.NoFault? { return false; }
      cfg, given := loaded, before;
      ok := true;
    }

    lemma ResolveAsGiven(id: string, now: Instant)
      requires cfg != null && WindowsOk(cfg.overrides)
      ensures
        var d := Resolved(cfg.tiers, cfg.customers, cfg.overrides, id, now);
        && ((forall k :: 0 <= k < |cfg.customers| ==> cfg.customers[k].id != id) ==> d == Decision(0, UnknownCustomer))
        && (Serves() ==>
              && (forall i :: 0 <= i < |given| && given[i].customer == id && InForce(given[i], now) ==>
                    d == Decision(given[i].limitRpm, OverrideApplied))
              && ((forall i :: 0 <= i < |given| && given[i].customer == id ==> !InForce(given[i], now)) ==>
                    forall k :: 0 <= k < |cfg.customers| && cfg.customers[k].id == id ==>
                      && (cfg.customers[k].limitRpm != 0 ==> d == Decision(cfg.customers[k].limitRpm, TierDefault))
                      && (cfg.customers[k].limitRpm == 0 ==>
                            && cfg.customers[k].tier in cfg.tiers
                            && d == Decision(cfg.tiers[cfg.customers[k].tier], TierDefault))))
    {
      hide InForce, Resolved, Accepted;
      LookupFound(cfg.customers, id);
      UnknownResolves(cfg.tiers, cfg.customers, cfg.overrides, id, now);
      if Serves() {
        var loaded :| Accepted(cfg.tiers, cfg.customers, given, loaded);
        var d := Resolved(cfg.tiers, cfg.customers, cfg.overrides, id, now);
        forall i | 0 <= i < |given| && given[i].customer == id && InForce(given[i], now)
          ensures d == Decision(given[i].limitRpm, OverrideApplied)
        {
          var k := OverrideNames(cfg.tiers, cfg.customers, given, loaded, i);
          ResolvedAsGiven(cfg.tiers, cfg.customers, given, loaded, k, now);
        }
        if forall i :: 0 <= i < |given| && given[i].customer == id ==> !InForce(given[i], now) {
          forall k | 0 <= k < |cfg.customers| && cfg.customers[k].id == id
            ensures cfg.customers[k].limitRpm != 0 ==> d == Decision(cfg.customers[k].limitRpm, TierDefault)
            ensures cfg.customers[k].limitRpm == 0 ==>
              cfg.customers[k].tier in cfg.tiers && d == Decision(cfg.tiers[cfg.customers[k].tier], TierDefault)
          {
            ResolvedAsGiven(cfg.tiers, cfg.customers, given, loaded, k, now);
          }
        }
      }
    }

    method Resolve(id: string, now: Instant) returns (d: Decision)
      requires cfg != null && WindowsOk(cfg.overrides)
      ensures d == Resolved(cfg.tiers, cfg.customers, cfg.overrides, id, now)
      ensures (forall k :: 0 <= k < |cfg.customers| ==> cfg.customers[k].id != id) ==> d == Decision(0, UnknownCustomer)
      ensures Serves() ==>
        forall i :: 0 <= i < |given| && given[i].customer == id && InForce(given[i], now) ==>
          d == Decision(given[i].limitRpm, OverrideApplied)
      ensures Serves() && (forall i :: 0 <= i < |given| && given[i].customer == id ==> !InForce(given[i], now)) ==>
        forall k :: 0 <= k < |cfg.customers| && cfg.customers[k].id == id ==>
          && (cfg.customers[k].limitRpm != 0 ==> d == Decision(cfg.customers[k].limitRpm, TierDefault))
          && (cfg.customers[k].limitRpm == 0 ==>
                && cfg.customers[k].tier in cfg.tiers
                && d == Decision(cfg.tiers[cfg.customers[k].tier], TierDefault))
    {
      ResolveAsGiven(id, now);
      var i := 0;
      while i < |cfg.customers| && cfg.customers[i].id != id
        invariant 0 <= i <= |cfg.customers|
        invariant Lookup(cfg.customers, id) == Lookup(cfg.customers[i..], id)
      {
        i := i + 1;
      }
      if i == |cfg.customers| { return Decision(0, UnknownCustomer); }
      var contracted := ContractedLimit(cfg.tiers, cfg.customers[i]);
      for k := 0 to |cfg.overrides|
        invariant FirstActive(cfg.overrides, id, now) == FirstActive(cfg.overrides[k..], id, now)
      {
        var o := cfg.overrides[k];
        if o.customer == id && ActiveAt(o, now) {
          return Decision(o.limitRpm, OverrideApplied);
        }
      }
      d := Decision(contracted, TierDefault);
    }
  }

  // ----- what acceptance buys -----

  predicate InWindow(t: Offset, w: DailyWindow)
    requires WindowOk(w)
  {
    w.start.offset <= t < EndWithGrace(w)
  }

  /** The pair test of the loops: two windows clash exactly when they share a time of day. */
  lemma OverlapIsSharedTime(w: DailyWindow, v: DailyWindow)
    requires WindowOk(w) && WindowOk(v)
    ensures Overlap(w, v) <==> exists t: Offset :: InWindow(t, w) && InWindow(t, v)
  {
    if Overlap(w, v) {
      var t: Offset := if w.start.offset < v.start.offset then v.start.offset else w.start.offset;
      assert InWindow(t, w) && InWindow(t, v);
    }
  }

  lemma ActiveIsInWindow(o: Override, now: Instant)
    requires WindowOk(o.window)
    ensures ActiveAt(o, now) <==> now < o.expiresAt && InWindow(now % DAY, o.window)
  {
    assert now == now / DAY * DAY + now % DAY;
  }

  lemma ActiveTogetherOverlap(o: Override, p: Override, now: Instant)
    requires WindowOk(o.window) && WindowOk(p.window) && ActiveAt(o, now) && ActiveAt(p, now)
    ensures Overlap(o.window, p.window)
  {
    hide ActiveAt, InWindow, Overlap;
    OverlapIsSharedTime(o.window, p.window);
    ActiveIsInWindow(o, now);
    ActiveIsInWindow(p, now);
  }

  ghost predicate ActiveTogetherOn(o: Override, p: Override, day: nat)
    requires WindowOk(o.window) && WindowOk(p.window)
  {
    exists now: Instant :: now / DAY == day && ActiveAt(o, now) && ActiveAt(p, now)
  }

  /** Two overrides share a time of day exactly when, on any day that both outlast, some
      instant finds both active. */
  lemma OverlapIsSharedInstant(o: Override, p: Override, day: nat)
    requires WindowOk(o.window) && WindowOk(p.window)
    requires o.expiresAt >= (day + 1) * DAY && p.expiresAt >= (day + 1) * DAY
    ensures Overlap(o.window, p.window) <==> ActiveTogetherOn(o, p, day)
  {
    hide ActiveAt, InWindow, Overlap;
    OverlapIsSharedTime(o.window, p.window);
    if Overlap(o.window, p.window) {
      var t: Offset :| InWindow(t, o.window) && InWindow(t, p.window);
      var now: Instant := day * DAY + t;
      assert now / DAY == day && now % DAY == t;
      ActiveIsInWindow(o, now);
      ActiveIsInWindow(p, now);
      assert ActiveAt(o, now) && ActiveAt(p, now);
    }
    forall now: Instant | ActiveAt(o, now) && ActiveAt(p, now) ensures Overlap(o.window, p.window) {
      ActiveTogetherOverlap(o, p, now);
    }
  }

  lemma ServingMeans(tiers: Tiers, customers: seq<Customer>, overrides: seq<Override>)
    requires Serving(tiers, customers, overrides)
    ensures CustomersOk(tiers, customers) && WindowsOk(overrides)
    ensures forall i :: 0 <= i < |overrides| ==>
      overrides[i].expiresAt >= DAY && Raises(tiers, customers, overrides[i])
    ensures forall i, j :: !Ambiguous(overrides, i, j)
  {
    var given, now :| Accepted(tiers, customers, given, now) && overrides == StampedAll(given);
    forall i | 0 <= i < |overrides|
      ensures WindowOk(overrides[i].window) && overrides[i].expiresAt >= DAY
      ensures Raises(tiers, customers, overrides[i])
    {
      assert OverrideOk(tiers, customers, given[i], now);
    }
    forall i, j ensures !Ambiguous(overrides, i, j) {
      assert !Ambiguous(given, i, j);
    }
  }

  /** At any instant at most one override of a customer is active. */
  lemma AtMostOneActive(tiers: Tiers, customers: seq<Customer>, overrides: seq<Override>, i: nat, j: nat, now: Instant)
    requires Serving(tiers, customers, overrides)
    requires i < |overrides| && j < |overrides| && overrides[i].customer == overrides[j].customer
    requires WindowOk(overrides[i].window) && ActiveAt(overrides[i], now)
    requires WindowOk(overrides[j].window) && ActiveAt(overrides[j], now)
    ensures i == j
  {
    hide ActiveAt;
    ServingMeans(tiers, customers, overrides);
    ActiveTogetherOverlap(overrides[i], overrides[j], now);
    assert !Ambiguous(overrides, i, j) && !Ambiguous(overrides, j, i);
  }

  lemma {:induction false} FirstActiveFound(overrides: seq<Override>, customer: string, now: Instant)
    returns (k: int)
    requires WindowsOk(overrides)
    ensures
      match FirstActive(overrides, customer, now)
      case Some(o) => 0 <= k < |overrides| && overrides[k] == o && o.customer == customer && ActiveAt(o, now)
      case None =>
        forall i :: 0 <= i < |overrides| && overrides[i].customer == customer ==> !ActiveAt(overrides[i], now)
  {
    hide ActiveAt;
    k := 0;
    if overrides != [] && !(overrides[0].customer == customer && ActiveAt(overrides[0], now)) {
      var k' := FirstActiveFound(overrides[1..], customer, now);
      k := k' + 1;
      if FirstActive(overrides, customer, now).None? {
        forall i | 0 <= i < |overrides| && overrides[i].customer == customer ensures !ActiveAt(overrides[i], now) {
          if i > 0 { assert overrides[i] == overrides[1..][i - 1]; }
        }
      }
    }
  }

  lemma {:induction false} LookupFound(customers: seq<Customer>, id: string)
    ensures
      match Lookup(customers, id)
      case Some(c) => c in customers && c.id == id
      case None => forall c :: c in customers ==> c.id != id
  {
    if customers != [] { LookupFound(customers[1..], id); }
  }

  lemma LookupUnique(customers: seq<Customer>, c: Customer)
    requires c in customers && forall i, j :: 0 <= i < j < |customers| ==> customers[i].id != customers[j].id
    ensures Lookup(customers, c.id) == Some(c)
  {
    LookupFound(customers, c.id);
    var other := Lookup(customers, c.id).value;
    var i :| 0 <= i < |customers| && customers[i] == c;
    var j :| 0 <= j < |customers| && customers[j] == other;
  }

  /** Some two overrides of one customer, active together, grant different limits. */
  ghost predicate Conflicting(overrides: seq<Override>) {
    exists i, j, now :: Conflict(overrides, i, j, now)
  }

  ghost predicate Conflict(overrides: seq<Override>, i: int, j: int, now: Instant) {
    && 0 <= i < |overrides| && 0 <= j < |overrides|
    && overrides[i].customer == overrides[j].customer && overrides[i].limitRpm != overrides[j].limitRpm
    && WindowOk(overrides[i].window) && WindowOk(overrides[j].window)
    && ActiveAt(overrides[i], now) && ActiveAt(overrides[j], now)
  }

  /** Resolve does not depend on the order of customers or of overrides. */
  ghost predicate OrderIndependent(tiers: Tiers, customers: seq<Customer>, overrides: seq<Override>)
    requires WindowsOk(overrides)
  {
    forall cs, os, id, now ::
      multiset(cs) == multiset(customers) && multiset(os) == multiset(overrides) && WindowsOk(os) ==>
      Resolved(tiers, cs, os, id, now) == Resolved(tiers, customers, overrides, id, now)
  }

  lemma SameLookup(customers: seq<Customer>, cs: seq<Customer>, id: string)
    requires multiset(cs) == multiset(customers)
    requires forall i, j :: 0 <= i < j < |customers| ==> customers[i].id != customers[j].id
    ensures Lookup(cs, id) == Lookup(customers, id)
  {
    PermutedMembers(cs, customers);
    LookupFound(cs, id);
    LookupFound(customers, id);
    match Lookup(cs, id)
    case Some(c) => LookupUnique(customers, c);
    case None =>
  }

  lemma SameWithoutConflict(tiers: Tiers, customers: seq<Customer>, overrides: seq<Override>,
                            cs: seq<Customer>, os: seq<Override>, id: string, now: Instant)
    requires CustomersOk(tiers, customers) && WindowsOk(overrides) && WindowsOk(os) && !Conflicting(overrides)
    requires multiset(cs) == multiset(customers) && multiset(os) == multiset(overrides)
    ensures Resolved(tiers, cs, os, id, now) == Resolved(tiers, customers, overrides, id, now)
  {
    hide ActiveAt;
    SameLookup(customers, cs, id);
    PermutedMembers(os, overrides);
    var k := FirstActiveFound(overrides, id, now);
    var l := FirstActiveFound(os, id, now);
    match FirstActive(os, id, now)
    case Some(o) =>
      assert os[l] in os && o in overrides;
      var j :| 0 <= j < |overrides| && overrides[j] == o;
      assert !Conflict(overrides, k, j, now);
    case None =>
      forall i | 0 <= i < |overrides| && overrides[i].customer == id ensures !ActiveAt(overrides[i], now) {
        assert overrides[i] in overrides && overrides[i] in os;
        var j :| 0 <= j < |os| && os[j] == overrides[i];
      }
  }

  function Foremost(overrides: seq<Override>, i: nat): seq<Override>
    requires i < |overrides|
  {
    [overrides[i]] + overrides[..i] + overrides[i + 1..]
  }

  lemma ForemostWins(tiers: Tiers, customers: seq<Customer>, overrides: seq<Override>, i: nat, now: Instant)
    requires WindowsOk(overrides) && i < |overrides| && ActiveAt(overrides[i], now)
    requires NamesCustomer(customers, overrides[i])
    ensures multiset(Foremost(overrides, i)) == multiset(overrides) && WindowsOk(Foremost(overrides, i))
    ensures Resolved(tiers, customers, Foremost(overrides, i), overrides[i].customer, now)
         == Decision(overrides[i].limitRpm, OverrideApplied)
  {
    hide ActiveAt;
    assert overrides == overrides[..i] + [overrides[i]] + overrides[i + 1..];
    LookupFound(customers, overrides[i].customer);
  }

  /** Among configurations that pass the other checks, resolution is independent of list
      order exactly when no two overrides of a customer are ever active together with
      different limits. */
  lemma OrderIndependentIff(tiers: Tiers, customers: seq<Customer>, overrides: seq<Override>)
    requires CustomersOk(tiers, customers) && WindowsOk(overrides)
    requires forall i :: 0 <= i < |overrides| ==> NamesCustomer(customers, overrides[i])
    ensures OrderIndependent(tiers, customers, overrides) <==> !Conflicting(overrides)
  {
    hide ActiveAt, Resolved, CustomersOk;
    if Conflicting(overrides) {
      var i, j, now :| Conflict(overrides, i, j, now);
      ForemostWins(tiers, customers, overrides, i, now);
      ForemostWins(tiers, customers, overrides, j, now);
      var id := overrides[i].customer;
      assert Resolved(tiers, customers, Foremost(overrides, i), id, now)
          != Resolved(tiers, customers, Foremost(overrides, j), id, now);
    } else {
      forall cs, os, id, now |
        multiset(cs) == multiset(customers) && multiset(os) == multiset(overrides) && WindowsOk(os)
        ensures Resolved(tiers, cs, os, id, now) == Resolved(tiers, customers, overrides, id, now)
      {
        SameWithoutConflict(tiers, customers, overrides, cs, os, id, now);
      }
    }
  }

  /** An accepted configuration resolves the same however its lists are ordered. */
  lemma AcceptedIsOrderIndependent(tiers: Tiers, customers: seq<Customer>, overrides: seq<Override>)
    requires Serving(tiers, customers, overrides)
    ensures WindowsOk(overrides) && OrderIndependent(tiers, customers, overrides)
  {
    hide ActiveAt, OrderIndependent, Serving;
    ServingMeans(tiers, customers, overrides);
    forall i | 0 <= i < |overrides| ensures NamesCustomer(customers, overrides[i]) {
      assert Raises(tiers, customers, overrides[i]);
    }
    OrderIndependentIff(tiers, customers, overrides);
    if Conflicting(overrides) {
      var i, j, now :| Conflict(overrides, i, j, now);
      AtMostOneActive(tiers, customers, overrides, i, j, now);
    }
  }

  /** Every known customer gets at least its contracted limit, which is at least one, and
      more than it exactly when an override applies; the rest get nothing. */
  lemma LimitAtLeastContracted(tiers: Tiers, customers: seq<Customer>, overrides: seq<Override>,
                               id: string, now: Instant)
    requires Serving(tiers, customers, overrides) && WindowsOk(overrides)
    ensures
      var d := Resolved(tiers, customers, overrides, id, now);
      match Lookup(customers, id)
      case None => d == Decision(0, UnknownCustomer)
      case Some(c) =>
        && 1 <= ContractedLimit(tiers, c) <= d.limit
        && (d.limit > ContractedLimit(tiers, c) <==> d.reason.OverrideApplied?)
        && (d.reason.OverrideApplied? <==>
              exists i :: 0 <= i < |overrides| && overrides[i].customer == id && ActiveAt(overrides[i], now))
  {
    hide ActiveAt, Serving;
    ServingMeans(tiers, customers, overrides);
    LookupFound(customers, id);
    var k := FirstActiveFound(overrides, id, now);
    match Lookup(customers, id)
    case None =>
    case Some(c) =>
      if FirstActive(overrides, id, now).Some? {
        assert Raises(tiers, customers, overrides[k]);
        var c' :| c' in customers && c'.id == id && ContractedLimit(tiers, c') < overrides[k].limitRpm;
        LookupUnique(customers, c');
      }
  }

  // ----- acceptance, rule by rule -----

  /** A time of day is inside both windows or their grace. */
  ghost predicate ShareTime(o: Override, p: Override)
    requires o.window.start.At? && o.window.end.At? && p.window.start.At? && p.window.end.At?
  {
    exists t: Offset :: InWindowOf(o, t) && InWindowOf(p, t)
  }

  predicate InWindowOf(o: Override, t: Offset)
    requires o.window.start.At? && o.window.end.At?
  {
    o.window.start.offset <= t && t < o.window.end.offset + o.window.graceMinutes * 60_000_000_000
  }

  /** Every customer is named, on a known tier, with exactly one of the two limits. */
  lemma CustomersMean(tiers: Tiers, customers: seq<Customer>)
    ensures CustomersOk(tiers, customers) <==>
      && tiers != map[]
      && (forall i :: 0 <= i < |customers| ==>
            && customers[i].id != "" && customers[i].tier in tiers
            && (tiers[customers[i].tier] == 0 || customers[i].limitRpm == 0)
            && tiers[customers[i].tier] + customers[i].limitRpm > 0
            && tiers[customers[i].tier] >= 0 && customers[i].limitRpm >= 0)
      && (forall i, j :: 0 <= i < j < |customers| ==> customers[i].id != customers[j].id)
  {
  }

  /** Every override has an owner, a paper trail, a future expiry and a daytime window, and
      is above what its customer has without it: its own limit or else its tier's. */
  lemma OverridesMean(tiers: Tiers, customers: seq<Customer>, overrides: seq<Override>, now: Instant)
    requires CustomersOk(tiers, customers)
    ensures OverridesOk(tiers, customers, overrides, now) <==>
      forall i :: 0 <= i < |overrides| ==>
        && overrides[i].customer != "" && overrides[i].ticket != "" && overrides[i].reason != ""
        && overrides[i].expires.On? && now < overrides[i].expires.day * DAY
        && overrides[i].window.start.At? && overrides[i].window.end.At?
        && overrides[i].window.start.offset < overrides[i].window.end.offset
        && overrides[i].window.graceMinutes >= 0
        && exists k :: 0 <= k < |customers| && customers[k].id == overrides[i].customer
             && customers[k].tier in tiers && overrides[i].limitRpm > tiers[customers[k].tier] + customers[k].limitRpm
  {
    forall i | 0 <= i < |overrides|
      ensures (Raises(tiers, customers, overrides[i]) && overrides[i].limitRpm > 0) <==>
        exists k :: 0 <= k < |customers| && customers[k].id == overrides[i].customer
          && customers[k].tier in tiers && overrides[i].limitRpm > tiers[customers[k].tier] + customers[k].limitRpm
    {
      RaiseMeans(tiers, customers, overrides[i]);
    }
  }

  lemma RaiseMeans(tiers: Tiers, customers: seq<Customer>, o: Override)
    requires CustomersOk(tiers, customers)
    ensures (Raises(tiers, customers, o) && o.limitRpm > 0) <==>
      exists k :: 0 <= k < |customers| && customers[k].id == o.customer
        && customers[k].tier in tiers && o.limitRpm > tiers[customers[k].tier] + customers[k].limitRpm
  {
    if Raises(tiers, customers, o) && o.limitRpm > 0 {
      var c :| c in customers && c.id == o.customer && ContractedLimit(tiers, c) < o.limitRpm;
      var k :| 0 <= k < |customers| && customers[k] == c;
      assert CustomerOk(tiers, customers[k]);
    }
    if k :| 0 <= k < |customers| && customers[k].id == o.customer && customers[k].tier in tiers
            && o.limitRpm > tiers[customers[k].tier] + customers[k].limitRpm {
      assert CustomerOk(tiers, customers[k]) && customers[k] in customers;
    }
  }

  /** Validate accepts exactly the configurations whose customers and overrides keep the
      rules, and in which no two overrides of a customer share a time of day. */
  lemma AcceptedMeans(tiers: Tiers, customers: seq<Customer>, overrides: seq<Override>, now: Instant)
    requires CustomersOk(tiers, customers) && OverridesOk(tiers, customers, overrides, now)
    ensures forall i :: 0 <= i < |overrides| ==> overrides[i].window.start.At? && overrides[i].window.end.At?
    ensures Accepted(tiers, customers, overrides, now) <==>
      forall i, j :: 0 <= i < j < |overrides| && overrides[i].customer == overrides[j].customer ==>
        !ShareTime(overrides[i], overrides[j])
  {
    hide ShareTime;
    forall i | 0 <= i < |overrides| ensures WindowOk(overrides[i].window) {
      assert OverrideOk(tiers, customers, overrides[i], now);
    }
    forall i, j | 0 <= i < j < |overrides| && overrides[i].customer == overrides[j].customer
      ensures Ambiguous(overrides, i, j) <==> ShareTime(overrides[i], overrides[j])
    {
      OverlapMeans(overrides[i], overrides[j]);
    }
  }

  lemma OverlapMeans(o: Override, p: Override)
    requires WindowOk(o.window) && WindowOk(p.window)
    ensures Overlap(o.window, p.window) <==> ShareTime(o, p)
  {
    OverlapIsSharedTime(o.window, p.window);
    assert forall t: Offset :: InWindow(t, o.window) <==> InWindowOf(o, t);
    assert forall t: Offset :: InWindow(t, p.window) <==> InWindowOf(p, t);
  }

  // ----- grace -----

  /** From day `first` on, every unexpired instant of a day's window plus grace finds the
      override active. */
  ghost predicate GraceHonoured(o: Override, first: nat)
    requires WindowOk(o.window)
  {
    forall day: nat, now: Instant :: first <= day && InPaddedWindow(o, day, now) ==> ActiveAt(o, now)
  }

  predicate InPaddedWindow(o: Override, day: nat, now: Instant)
    requires WindowOk(o.window)
  {
    now < o.expiresAt && day * DAY + o.window.start.offset <= now < day * DAY + EndWithGrace(o.window)
  }

  /** From any day on, grace is honoured in full exactly when it ends by midnight, or the
      window starts at midnight, or the override expires with that day; otherwise what
      runs past the next midnight is lost. */
  lemma GraceHonouredIff(o: Override, first: nat)
    requires WindowOk(o.window)
    ensures GraceHonoured(o, first) <==>
      EndWithGrace(o.window) <= DAY || o.window.start.offset == 0 || o.expiresAt <= (first + 1) * DAY
  {
    var midnight: Instant := (first + 1) * DAY;
    if EndWithGrace(o.window) <= DAY || o.window.start.offset == 0 || o.expiresAt <= midnight {
      forall day: nat, now: Instant | first <= day && InPaddedWindow(o, day, now) ensures ActiveAt(o, now) {
        DayOf(o, first, day, now);
      }
    } else {
      assert midnight % DAY == 0;
      assert InPaddedWindow(o, first, midnight) && !ActiveAt(o, midnight);
    }
  }

  lemma DayOf(o: Override, first: nat, day: nat, now: Instant)
    requires WindowOk(o.window) && first <= day && InPaddedWindow(o, day, now)
    requires EndWithGrace(o.window) <= DAY || o.window.start.offset == 0 || o.expiresAt <= (first + 1) * DAY
    ensures ActiveAt(o, now)
  {
    assert now == now / DAY * DAY + now % DAY;
    if now / DAY > day && o.window.start.offset == 0 {
      assert EndWithGrace(o.window) > now - day * DAY >= DAY;
    }
  }
}
