/** controllers/hosting_payment_controller.py: paying for a hosting plan.
    initialize records a "pending" payment under the reference the gateway
    issues; callback re-verifies with the gateway and marks the payment
    "completed"; verify only reads. initialize, verify and callback run their
    work inside `try ... except Exception`, which turns every error raised
    there, the handlers' own 400s included, into a 500. */
module HostingPayments {
  import opened Http
  import opened Tables
  import opened Schema
  import opened Paystack

  datatype HostingPaymentRequest = HostingPaymentRequest(
    email: string,
    fullName: string,
    phone: string,
    planId: int)

  datatype InitBody = InitBody(message: string, data: InitReply)

  datatype PaymentBody = PaymentBody(message: string, data: HostingPayment)

  const PENDING := "pending"
  const COMPLETED := "completed"
  const CURRENCY := "KES"
  const CHANNELS := ["mobile_money", "card"]

  const MISSING_REFERENCE := Error(400, "Missing transaction reference", false)
  const PLAN_NOT_FOUND := Error(400, "Hosting plan not found", false)
  const NAME_REQUIRED := Error(400, "Email and Name are required.", false)
  const VERIFY_FAILED := Error(500, "Failed to verify payment", false)
  const PAYMENT_NOT_FOUND := Error(404, "Payment not found", false)
  const PAYMENT_NOT_SUCCESSFUL := Error(400, "Payment failed or not successful", false)
  /** What json.dumps raises when a JSONResponse is given the ORM row. */
  const NOT_SERIALIZABLE := "Object of type HostingPayment is not JSON serializable"

  /** The catch-all of initialize: "Error initializing payment: {e}". */
  function InitError(cause: string): Error {
    Error(500, "Error initializing payment: " + cause, false)
  }

  /** The catch-all of callback: "Failed to process payment callback: {e}". */
  function CallbackError(cause: string): Error {
    Error(500, "Failed to process payment callback: " + cause, false)
  }

  /** The only statuses this controller writes. */
  ghost predicate StatusesKnown(t: Table<HostingPayment>) {
    forall id :: id in t.rows ==> t.rows[id].status in {PENDING, COMPLETED}
  }

  function ByReference(reference: string): HostingPayment -> bool {
    (p: HostingPayment) => p.reference == reference
  }

  predicate PlanExists(plans: Table<HostingPlan>, id: int) {
    id >= 0 && id in plans.rows
  }

  /** The payload posted to the gateway: the annual price in the smallest
      currency unit (times 100), in KES, by mobile money or card, with the
      unscaled price and the payer in the metadata. */
  function PaymentDetails(plan: HostingPlan, req: HostingPaymentRequest, callbackUrl: string): (d: InitPayload)
    ensures d.currency == Some(CURRENCY) && d.channels == Some(CHANNELS)
    ensures d.amount == Num(100 * plan.annualPrice)
    ensures d.email == Str(req.email) && d.callbackUrl == Str(callbackUrl)
    ensures d.metadata == map["amount" := Num(plan.annualPrice), "email" := Str(req.email),
                              "name" := Str(req.fullName), "phone" := Str(req.phone)]
  {
    InitPayload(Some(CURRENCY), Num(plan.annualPrice * 100), Str(req.email), Str(callbackUrl), Some(CHANNELS),
      map["amount" := Num(plan.annualPrice), "email" := Str(req.email),
          "name" := Str(req.fullName), "phone" := Str(req.phone)])
  }

  /** POST /initialize. */
  method InitializePayment(db: Session, req: HostingPaymentRequest, callbackUrl: string, gateway: Gateway)
    returns (r: Result<InitBody>, calls: seq<Call>)
    requires Tables.Valid(db.hostingPayments)
    modifies db`hostingPayments
    ensures Tables.Valid(db.hostingPayments)
    ensures StatusesKnown(old(db.hostingPayments)) ==> StatusesKnown(db.hostingPayments)
    ensures r.Fail? ==> r.error.code == 500 && db.hostingPayments == old(db.hostingPayments)
    ensures !PlanExists(db.plans, req.planId) ==>
      r == Fail(InitError(Describe(PLAN_NOT_FOUND))) && calls == []
    ensures PlanExists(db.plans, req.planId) && (req.email == "" || req.fullName == "") ==>
      r == Fail(InitError(Describe(NAME_REQUIRED))) && calls == []
    ensures PlanExists(db.plans, req.planId) && req.email != "" && req.fullName != "" ==>
      var details := PaymentDetails(db.plans.rows[req.planId], req, callbackUrl);
      var reply := gateway.initialize(details);
      && calls == [InitializeCall(details)]
      && (reply.InitFailed? ==> r == Fail(InitError(reply.message)))
      && (reply.Initialized? ==>
            && r == Ok(InitBody("Payment initialized successfully", reply))
            && db.hostingPayments == Insert(old(db.hostingPayments),
                 HostingPayment(req.email, req.fullName, req.phone, req.planId, reply.reference, PENDING)).0)
  {
    calls := [];
    if !PlanExists(db.plans, req.planId) {
      return Fail(InitError(Describe(PLAN_NOT_FOUND))), calls;
    }
    if req.email == "" || req.fullName == "" {
      return Fail(InitError(Describe(NAME_REQUIRED))), calls;
    }
    var plan := db.plans.rows[req.planId];
    var details := PaymentDetails(plan, req, callbackUrl);
    calls := [InitializeCall(details)];
    var reply := gateway.initialize(details);
    if reply.InitFailed? {
      return Fail(InitError(reply.message)), calls;
    }
    var record := HostingPayment(req.email, req.fullName, req.phone, req.planId, reply.reference, PENDING);
    var (payments', _) := Insert(db.hostingPayments, record);
    db.hostingPayments := payments';
    r := Ok(InitBody("Payment initialized successfully", reply));
  }

  /** GET /verify: read-only. A successful verification answers with the
      stored row for the gateway's reference, or with a null body when there
      is none; a non-success status raises a 400 that the catch-all turns
      into a 500. */
  function VerifyPayment(payments: Table<HostingPayment>, reference: string, gateway: Gateway)
    : (r: (Result<Option<PaymentBody>>, seq<Call>))
    requires Tables.Valid(payments)
    ensures reference == "" ==> r == (Fail(MISSING_REFERENCE), [])
    ensures reference != "" ==> r.1 == [VerifyCall(reference)]
    ensures reference != "" && r.0.Fail? ==> r.0.error == VERIFY_FAILED
    ensures r.0.Ok? <==> reference != "" && gateway.verify(reference).Verified?
                         && gateway.verify(reference).status == SUCCESS
    ensures r.0.Ok? ==>
      var found := gateway.verify(reference).reference;
      && (r.0.value.None? <==> forall id :: id in payments.rows ==> payments.rows[id].reference != found)
      && (r.0.value.Some? ==>
            && r.0.value.value.message == "Payment already exists"
            && r.0.value.value.data.reference == found
            && (exists id :: id in payments.rows && payments.rows[id] == r.0.value.value.data))
  {
    if reference == "" then (Fail(MISSING_REFERENCE), [])
    else
      var reply := gateway.verify(reference);
      if reply.VerifyFailed? || reply.status != SUCCESS then (Fail(VERIFY_FAILED), [VerifyCall(reference)])
      else
        match First(payments, ByReference(reply.reference))
        case None => (Ok(None), [VerifyCall(reference)])
        case Some(id) => (Ok(Some(PaymentBody("Payment already exists", payments.rows[id]))), [VerifyCall(reference)])
  }

  /** Whether the gateway confirms the payment a callback is about. */
  predicate Confirmed(reference: string, reply: VerifyReply) {
    reference != "" && reply.Verified? && reply.status == SUCCESS
  }

  /** The payment table after a callback for reference, the gateway answering
      reply: the first row with that reference, if the gateway confirms it,
      has its status set to "completed"; nothing else changes. */
  function CallbackEffect(t: Table<HostingPayment>, reference: string, reply: VerifyReply): (t': Table<HostingPayment>)
    requires Tables.Valid(t)
    ensures Tables.Valid(t') && t'.nextId == t.nextId && t'.rows.Keys == t.rows.Keys
    ensures forall id :: id in t.rows && t'.rows[id] != t.rows[id] ==>
      Confirmed(reference, reply) && First(t, ByReference(reference)) == Some(id)
    ensures forall id :: id in t.rows ==> t'.rows[id] == t.rows[id] || t'.rows[id] == t.rows[id].(status := COMPLETED)
    ensures Confirmed(reference, reply) && First(t, ByReference(reference)).Some? ==>
      t'.rows[First(t, ByReference(reference)).value].status == COMPLETED
  {
    if !Confirmed(reference, reply) then t
    else
      match First(t, ByReference(reference))
      case None => t
      case Some(id) => Update(t, id, t.rows[id].(status := COMPLETED))
  }

  /** What callback answers, as written. On the success path it builds a
      JSONResponse around the ORM row after the commit; rendering that row
      raises, and the catch-all answers 500. */
  function CallbackReply(t: Table<HostingPayment>, reference: string, reply: VerifyReply): (r: Result<PaymentBody>)
    requires Tables.Valid(t)
    ensures r.Fail?
    ensures reference == "" ==> r.error == MISSING_REFERENCE
    ensures reference != "" && reply.VerifyFailed? ==> r.error == CallbackError(reply.message)
    ensures reference != "" && reply.Verified? && reply.status != SUCCESS ==> r.error == PAYMENT_NOT_SUCCESSFUL
    ensures Confirmed(reference, reply) ==>
      r.error == if First(t, ByReference(reference)).None? then PAYMENT_NOT_FOUND
                 else CallbackError(NOT_SERIALIZABLE)
  {
    if reference == "" then Fail(MISSING_REFERENCE)
    else if reply.VerifyFailed? then Fail(CallbackError(reply.message))
    else if reply.status != SUCCESS then Fail(PAYMENT_NOT_SUCCESSFUL)
    else if First(t, ByReference(reference)).None? then Fail(PAYMENT_NOT_FOUND)
    else Fail(CallbackError(NOT_SERIALIZABLE))
  }

  /** What callback evidently means to answer: 200 with the completed row. */
  function CallbackReplyIntended(t: Table<HostingPayment>, reference: string, reply: VerifyReply): (r: Result<PaymentBody>)
    requires Tables.Valid(t)
    ensures r.Ok? <==> Confirmed(reference, reply) && First(t, ByReference(reference)).Some?
    ensures r.Ok? ==>
      var id := First(t, ByReference(reference)).value;
      r.value == PaymentBody("Payment processed successfully", CallbackEffect(t, reference, reply).rows[id])
    ensures r.Ok? ==> r.value.data.status == COMPLETED && r.value.data.reference == reference
    ensures r.Fail? ==> r == CallbackReply(t, reference, reply)
  {
    if Confirmed(reference, reply) && First(t, ByReference(reference)).Some? then
      var id := First(t, ByReference(reference)).value;
      Ok(PaymentBody("Payment processed successfully", CallbackEffect(t, reference, reply).rows[id]))
    else CallbackReply(t, reference, reply)
  }

  /** GET /callback. */
  method Callback(db: Session, reference: string, gateway: Gateway) returns (r: Result<PaymentBody>, calls: seq<Call>)
    requires Tables.Valid(db.hostingPayments)
    modifies db`hostingPayments
    ensures reference == "" ==> calls == []
    ensures reference != "" ==> calls == [VerifyCall(reference)]
    ensures db.hostingPayments == CallbackEffect(old(db.hostingPayments), reference, gateway.verify(reference))
    ensures r == CallbackReply(old(db.hostingPayments), reference, gateway.verify(reference))
  {
    if reference == "" {
      return Fail(MISSING_REFERENCE), [];
    }
    calls := [VerifyCall(reference)];
    var reply := gateway.verify(reference);
    if reply.VerifyFailed? {
      return Fail(CallbackError(reply.message)), calls;
    }
    if reply.status != SUCCESS {
      return Fail(PAYMENT_NOT_SUCCESSFUL), calls;
    }
    var found := First(db.hostingPayments, ByReference(reference));
    if found.None? {
      return Fail(PAYMENT_NOT_FOUND), calls;
    }
    var id := found.value;
    db.hostingPayments := Update(db.hostingPayments, id, db.hostingPayments.rows[id].(status := COMPLETED));
    r := Fail(CallbackError(NOT_SERIALIZABLE));
  }

  /** A second callback with the same gateway answer changes nothing and
      answers as the first did. */
  lemma CallbackIdempotent(t: Table<HostingPayment>, reference: string, reply: VerifyReply)
    requires Tables.Valid(t)
    ensures CallbackEffect(CallbackEffect(t, reference, reply), reference, reply) == CallbackEffect(t, reference, reply)
    ensures CallbackReply(CallbackEffect(t, reference, reply), reference, reply) == CallbackReply(t, reference, reply)
  {
    if Confirmed(reference, reply) && First(t, ByReference(reference)).Some? {
      var id := First(t, ByReference(reference)).value;
      var t1 := CallbackEffect(t, reference, reply);
      FirstAfterUpdate(t, ByReference(reference), id, t.rows[id].(status := COMPLETED));
      assert First(t1, ByReference(reference)) == Some(id);
      assert t1.rows[id].(status := COMPLETED) == t1.rows[id];
      assert Update(t1, id, t1.rows[id]) == t1;
    }
  }

  /** Callbacks keep the stored statuses within "pending" and "completed". */
  lemma CallbackKeepsStatusesKnown(t: Table<HostingPayment>, reference: string, reply: VerifyReply)
    requires Tables.Valid(t) && StatusesKnown(t)
    ensures StatusesKnown(CallbackEffect(t, reference, reply))
  {
  }

  /** On the success path the status is already committed when the answer
      fails: the caller sees a 500 for a payment that is now completed. */
  lemma CallbackCommitsBeforeFailing(t: Table<HostingPayment>, reference: string, reply: VerifyReply)
    requires Tables.Valid(t) && Confirmed(reference, reply) && First(t, ByReference(reference)).Some?
    ensures CallbackReply(t, reference, reply).error.code == 500
    ensures CallbackEffect(t, reference, reply).rows[First(t, ByReference(reference)).value].status == COMPLETED
    ensures CallbackReplyIntended(t, reference, reply).Ok?
  {
  }

  /** GET /payments: every stored payment, with its key, in key order. */
  function GetPayments(t: Table<HostingPayment>): (r: seq<(nat, HostingPayment)>)
    requires Tables.Valid(t)
    ensures forall i :: 0 <= i < |r| ==> r[i].0 in t.rows && r[i].1 == t.rows[r[i].0]
    ensures forall i, j :: 0 <= i < j < |r| ==> r[i].0 < r[j].0
    ensures forall id :: id in t.rows ==> (id, t.rows[id]) in r
  {
    All(t)
  }
}
