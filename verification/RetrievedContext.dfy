/** `process_context` (src/app_coordinator_function.py): the rows retrieved for a
    ticket are cut down to what the response shows. Each similar ticket becomes
    its `ticketId`; each manual chunk becomes its `id`, `url`, `page_number` and
    `doctype`. A missing key raises `KeyError`, modelled as `Err` naming the key. */
module RetrievedContext {

  import opened Wrappers
  import opened OrderedDict

  /** A retrieved row, as a dict from column names to values of any type `V`. */
  type Row<V> = Dict<string, V>

  const TicketId: string := "ticketId"

  /** The keys of a manual entry, in the order the source writes them. */
  const ManualKeys: seq<string> := ["id", "url", "page_number", "doctype"]

  /** The returned dict: exactly the keys `"tickets"` and `"manuals"`. */
  datatype Context<V> = Context(tickets: seq<V>, manuals: seq<Row<V>>)

  /** `row[key]`. */
  function Lookup<V>(row: Row<V>, key: string): (r: Result<V>)
    ensures r.Ok? <==> key in Keys(row)
    ensures r.Ok? ==> Get(row, key) == Some(r.value)
    ensures r.Err? ==> r.message == "KeyError: " + key
  {
    match Get(row, key)
    case Some(v) => Ok(v)
    case None => Err("KeyError: " + key)
  }

  // ---------------------------------------------------------------------------
  // List comprehensions whose element expression may raise
  // ---------------------------------------------------------------------------

  /** `[f(x) for x in xs]` where `f` may raise: the first element that raises
      ends the comprehension with its error. */
  function MapResult<A, B>(xs: seq<A>, f: A -> Result<B>): (r: Result<seq<B>>)
    ensures r.Ok? <==> forall i :: 0 <= i < |xs| ==> f(xs[i]).Ok?
    ensures r.Ok? ==> |r.value| == |xs| && forall i :: 0 <= i < |xs| ==> f(xs[i]) == Ok(r.value[i])
  {
    if |xs| == 0 then Ok([])
    else
      var y :- f(xs[0]);
      var rest :- MapResult(xs[1..], f);
      assert forall i :: 1 <= i < |xs| ==> xs[i] == xs[1..][i - 1];
      Ok([y] + rest)
  }

  /** A failed comprehension reports the error of the first element that raises. */
  lemma {:induction false} MapResultFirstError<A, B>(xs: seq<A>, f: A -> Result<B>)
    requires MapResult(xs, f).Err?
    ensures exists i :: 0 <= i < |xs| && f(xs[i]).Err?
                        && MapResult(xs, f).message == f(xs[i]).message
                        && forall j :: 0 <= j < i ==> f(xs[j]).Ok?
  {
    if f(xs[0]).Err? {
      assert 0 < |xs| && f(xs[0]).Err? && MapResult(xs, f).message == f(xs[0]).message;
    } else {
      MapResultFirstError(xs[1..], f);
      var i :| 0 <= i < |xs[1..]| && f(xs[1..][i]).Err?
               && MapResult(xs[1..], f).message == f(xs[1..][i]).message
               && forall j :: 0 <= j < i ==> f(xs[1..][j]).Ok?;
      forall j | 0 <= j < i + 1 ensures f(xs[j]).Ok? {
        if j > 0 {
          assert xs[j] == xs[1..][j - 1];
        }
      }
      assert xs[i + 1] == xs[1..][i];
    }
  }

  /** Elements that the expression maps alike give the same comprehension. */
  lemma {:induction false} MapResultAgree<A, B>(xs: seq<A>, ys: seq<A>, f: A -> Result<B>)
    requires |xs| == |ys|
    requires forall i :: 0 <= i < |xs| ==> f(xs[i]) == f(ys[i])
    ensures MapResult(xs, f) == MapResult(ys, f)
  {
    if |xs| > 0 {
      assert forall i :: 1 <= i < |xs| ==> xs[i] == xs[1..][i - 1] && ys[i] == ys[1..][i - 1];
      MapResultAgree(xs[1..], ys[1..], f);
    }
  }

  // ---------------------------------------------------------------------------
  // The two projections
  // ---------------------------------------------------------------------------

  /** `ticket["ticketId"]`. */
  function TicketIdOf<V>(ticket: Row<V>): (r: Result<V>)
    ensures r.Ok? <==> TicketId in Keys(ticket)
    ensures r.Ok? ==> Get(ticket, TicketId) == Some(r.value)
  {
    Lookup(ticket, TicketId)
  }

  /** `[ticket["ticketId"] for ticket in tickets]`. */
  function ProjectTickets<V>(tickets: seq<Row<V>>): Result<seq<V>> {
    MapResult(tickets, TicketIdOf)
  }

  /** The chunk has every key the manual entry is built from. */
  predicate HasManualKeys<V>(manual: Row<V>) {
    "id" in Keys(manual) && "url" in Keys(manual) && "page_number" in Keys(manual) && "doctype" in Keys(manual)
  }

  /** `entry` is the manual entry of `manual`: the four keys, in order, each
      with the chunk's value. */
  ghost predicate EntryOf<V>(manual: Row<V>, entry: Row<V>) {
    && Keys(entry) == ManualKeys
    && Get(entry, "id") == Get(manual, "id") && Get(entry, "url") == Get(manual, "url")
    && Get(entry, "page_number") == Get(manual, "page_number") && Get(entry, "doctype") == Get(manual, "doctype")
  }

  /** The dict literal of a manual entry. */
  function Entry<V>(id: V, url: V, page: V, doctype: V): (e: Row<V>)
    ensures Keys(e) == ManualKeys
    ensures Get(e, "id") == Some(id) && Get(e, "url") == Some(url)
    ensures Get(e, "page_number") == Some(page) && Get(e, "doctype") == Some(doctype)
  {
    var e := [("id", id), ("url", url), ("page_number", page), ("doctype", doctype)];
    assert Keys(e) == ManualKeys;
    GetAt(e, 0);
    GetAt(e, 1);
    GetAt(e, 2);
    GetAt(e, 3);
    e
  }

  /** The entry built for one manual chunk; the first missing key raises. */
  function ProjectManual<V>(manual: Row<V>): (r: Result<Row<V>>)
    ensures r.Ok? <==> HasManualKeys(manual)
    ensures r.Ok? ==> EntryOf(manual, r.value)
  {
    var id :- Lookup(manual, "id");
    var url :- Lookup(manual, "url");
    var page :- Lookup(manual, "page_number");
    var doctype :- Lookup(manual, "doctype");
    Ok(Entry(id, url, page, doctype))
  }

  /** A chunk that cannot be projected lacks a key of the entry, and the error
      names it. */
  lemma ProjectManualError<V>(manual: Row<V>)
    requires ProjectManual(manual).Err?
    ensures exists k :: k in ManualKeys && k !in Keys(manual) && ProjectManual(manual).message == "KeyError: " + k
  {
    var k := if "id" !in Keys(manual) then ManualKeys[0]
             else if "url" !in Keys(manual) then ManualKeys[1]
             else if "page_number" !in Keys(manual) then ManualKeys[2]
             else ManualKeys[3];
    assert ProjectManual(manual) == Lookup(manual, k).PropagateFailure();
    assert k in ManualKeys;
  }

  /** `[{...} for manual in manuals]`. */
  function ProjectManuals<V>(manuals: seq<Row<V>>): Result<seq<Row<V>>> {
    MapResult(manuals, ProjectManual)
  }

  /** `process_context`: the lists are read first, then projected. */
  function ProcessContext<V>(context: Dict<string, seq<Row<V>>>): Result<Context<V>> {
    var tickets :- Lookup(context, "tickets");
    var manuals :- Lookup(context, "manuals");
    var newTickets :- ProjectTickets(tickets);
    var newManuals :- ProjectManuals(manuals);
    Ok(Context(newTickets, newManuals))
  }

  // ---------------------------------------------------------------------------
  // Properties
  // ---------------------------------------------------------------------------

  predicate AllHaveTicketId<V>(tickets: seq<Row<V>>) {
    forall i :: 0 <= i < |tickets| ==> TicketId in Keys(tickets[i])
  }

  predicate AllHaveManualKeys<V>(manuals: seq<Row<V>>) {
    forall i :: 0 <= i < |manuals| ==> HasManualKeys(manuals[i])
  }

  /** The projection succeeds exactly when both lists are present and every row
      has the keys read from it. */
  lemma ProcessContextOk<V>(context: Dict<string, seq<Row<V>>>)
    ensures ProcessContext(context).Ok? <==>
              && "tickets" in Keys(context) && "manuals" in Keys(context)
              && AllHaveTicketId(Get(context, "tickets").value)
              && AllHaveManualKeys(Get(context, "manuals").value)
  {
    if "tickets" in Keys(context) && "manuals" in Keys(context) {
      var tickets, manuals := Get(context, "tickets").value, Get(context, "manuals").value;
      assert Lookup(context, "tickets") == Ok(tickets);
      assert Lookup(context, "manuals") == Ok(manuals);
      assert ProcessContext(context).Ok? <==> ProjectTickets(tickets).Ok? && ProjectManuals(manuals).Ok?;
      assert ProjectTickets(tickets).Ok? <==> AllHaveTicketId(tickets);
      assert ProjectManuals(manuals).Ok? <==> AllHaveManualKeys(manuals);
    }
  }

  /** With both lists present, the tickets are projected first. */
  lemma ProcessContextSteps<V>(context: Dict<string, seq<Row<V>>>)
    requires "tickets" in Keys(context) && "manuals" in Keys(context)
    ensures var tickets, manuals := Get(context, "tickets").value, Get(context, "manuals").value;
      var r := ProcessContext(context);
      && (ProjectTickets(tickets).Err? ==> r.Err? && r.message == ProjectTickets(tickets).message)
      && (ProjectTickets(tickets).Ok? && ProjectManuals(manuals).Err? ==> r.Err? && r.message == ProjectManuals(manuals).message)
  {
    var tickets, manuals := Get(context, "tickets").value, Get(context, "manuals").value;
    assert Lookup(context, "tickets") == Ok(tickets);
    assert Lookup(context, "manuals") == Ok(manuals);
  }

  /** A failed ticket projection names `ticketId`, missing from some ticket. */
  lemma TicketsError<V>(tickets: seq<Row<V>>)
    requires ProjectTickets(tickets).Err?
    ensures exists i :: 0 <= i < |tickets| && TicketId !in Keys(tickets[i])
    ensures ProjectTickets(tickets).message == "KeyError: " + TicketId
  {
    MapResultFirstError(tickets, TicketIdOf);
  }

  /** A failed manual projection names a key missing from some chunk. */
  lemma ManualsError<V>(manuals: seq<Row<V>>)
    requires ProjectManuals(manuals).Err?
    ensures exists i, k :: 0 <= i < |manuals| && k in ManualKeys && k !in Keys(manuals[i])
                           && ProjectManuals(manuals).message == "KeyError: " + k
  {
    MapResultFirstError(manuals, ProjectManual);
    var i :| 0 <= i < |manuals| && ProjectManual(manuals[i]).Err?
             && ProjectManuals(manuals).message == ProjectManual(manuals[i]).message;
    ProjectManualError(manuals[i]);
  }

  /** A failed projection names a key missing from a row: from the first ticket
      without `ticketId`, or from the first manual chunk missing one of its keys. */
  lemma ProcessContextError<V>(context: Dict<string, seq<Row<V>>>)
    requires "tickets" in Keys(context) && "manuals" in Keys(context)
    requires ProcessContext(context).Err?
    ensures var tickets, manuals := Get(context, "tickets").value, Get(context, "manuals").value;
      var msg := ProcessContext(context).message;
      || (msg == "KeyError: " + TicketId && exists i :: 0 <= i < |tickets| && TicketId !in Keys(tickets[i]))
      || (exists i, k :: 0 <= i < |manuals| && k in ManualKeys && k !in Keys(manuals[i]) && msg == "KeyError: " + k)
  {
    var tickets, manuals := Get(context, "tickets").value, Get(context, "manuals").value;
    ProcessContextSteps(context);
    if ProjectTickets(tickets).Err? {
      TicketsError(tickets);
    } else {
      ManualsError(manuals);
    }
  }

  /** Each projected ticket is the ticket's `ticketId`. */
  lemma TicketValues<V>(tickets: seq<Row<V>>)
    requires ProjectTickets(tickets).Ok?
    ensures var pt := ProjectTickets(tickets).value;
      |pt| == |tickets| && forall i :: 0 <= i < |tickets| ==> Get(tickets[i], TicketId) == Some(pt[i])
  {
    var pt := ProjectTickets(tickets).value;
    forall i | 0 <= i < |tickets| ensures Get(tickets[i], TicketId) == Some(pt[i]) {
      assert TicketIdOf(tickets[i]) == Ok(pt[i]);
    }
  }

  /** Each projected chunk is the chunk's manual entry. */
  lemma ManualValues<V>(manuals: seq<Row<V>>)
    requires ProjectManuals(manuals).Ok?
    ensures var pm := ProjectManuals(manuals).value;
      && |pm| == |manuals|
      && (forall i :: 0 <= i < |manuals| ==> Keys(pm[i]) == ManualKeys)
      && (forall i, k :: 0 <= i < |manuals| && k in ManualKeys ==> Get(pm[i], k) == Get(manuals[i], k))
  {
    var pm := ProjectManuals(manuals).value;
    forall i | 0 <= i < |manuals|
      ensures Keys(pm[i]) == ManualKeys
      ensures forall k :: k in ManualKeys ==> Get(pm[i], k) == Get(manuals[i], k)
    {
      assert ProjectManual(manuals[i]) == Ok(pm[i]);
      assert EntryOf(manuals[i], pm[i]);
    }
  }

  /** A successful projection keeps the length and the order of both lists; each
      ticket gives its `ticketId`, and each manual chunk a dict with exactly the
      four keys, holding the chunk's values. */
  lemma ProcessContextValues<V>(context: Dict<string, seq<Row<V>>>)
    requires ProcessContext(context).Ok?
    ensures var r := ProcessContext(context).value;
      var tickets, manuals := Get(context, "tickets").value, Get(context, "manuals").value;
      && |r.tickets| == |tickets| && |r.manuals| == |manuals|
      && (forall i :: 0 <= i < |tickets| ==> Get(tickets[i], TicketId) == Some(r.tickets[i]))
      && (forall i :: 0 <= i < |manuals| ==> Keys(r.manuals[i]) == ManualKeys)
      && (forall i, k :: 0 <= i < |manuals| && k in ManualKeys ==> Get(r.manuals[i], k) == Get(manuals[i], k))
  {
    var tickets, manuals := Get(context, "tickets").value, Get(context, "manuals").value;
    assert Lookup(context, "tickets") == Ok(tickets);
    assert Lookup(context, "manuals") == Ok(manuals);
    TicketValues(tickets);
    ManualValues(manuals);
  }

  /** Every other field of a row (the chunk text, the score, ...) is dropped:
      rows that agree on the keys read give the same result. */
  lemma OtherFieldsDropped<V>(a: Dict<string, seq<Row<V>>>, b: Dict<string, seq<Row<V>>>)
    requires Get(a, "tickets").Some? && Get(a, "manuals").Some?
    requires Get(b, "tickets").Some? && Get(b, "manuals").Some?
    requires |Get(a, "tickets").value| == |Get(b, "tickets").value|
    requires forall i :: 0 <= i < |Get(a, "tickets").value| ==>
               Get(Get(a, "tickets").value[i], TicketId) == Get(Get(b, "tickets").value[i], TicketId)
    requires |Get(a, "manuals").value| == |Get(b, "manuals").value|
    requires forall i, k :: 0 <= i < |Get(a, "manuals").value| && k in ManualKeys ==>
               Get(Get(a, "manuals").value[i], k) == Get(Get(b, "manuals").value[i], k)
    ensures ProcessContext(a).Ok? <==> ProcessContext(b).Ok?
    ensures ProcessContext(a).Ok? ==> ProcessContext(a) == ProcessContext(b)
  {
    var ta, tb := Get(a, "tickets").value, Get(b, "tickets").value;
    var ma, mb := Get(a, "manuals").value, Get(b, "manuals").value;
    forall i | 0 <= i < |ta| ensures TicketIdOf(ta[i]) == TicketIdOf(tb[i]) {
      LookupAgree(ta[i], tb[i], TicketId);
    }
    MapResultAgree(ta, tb, TicketIdOf);
    forall i | 0 <= i < |ma| ensures ProjectManual(ma[i]) == ProjectManual(mb[i]) {
      ManualAgree(ma[i], mb[i]);
    }
    MapResultAgree(ma, mb, ProjectManual);
  }

  lemma LookupAgree<V>(a: Row<V>, b: Row<V>, key: string)
    requires Get(a, key) == Get(b, key)
    ensures Lookup(a, key) == Lookup(b, key)
  {
  }

  lemma ManualAgree<V>(a: Row<V>, b: Row<V>)
    requires forall k :: k in ManualKeys ==> Get(a, k) == Get(b, k)
    ensures ProjectManual(a) == ProjectManual(b)
  {
    assert "id" in ManualKeys && "url" in ManualKeys && "page_number" in ManualKeys && "doctype" in ManualKeys;
    LookupAgree(a, b, "id");
    LookupAgree(a, b, "url");
    LookupAgree(a, b, "page_number");
    LookupAgree(a, b, "doctype");
  }
}
