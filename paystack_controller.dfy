/** controllers/paystack_controller.py: the legacy Paystack endpoints.
    Initialize forwards the request to the gateway and stores nothing; verify
    stores one payment row per successful verification, without looking for
    an earlier row with the same reference. Neither handler catches
    exceptions, so a gateway failure or a missing metadata key reaches
    main.py's catch-all and is answered with a 500. */
module PaystackController {
  import opened Http
  import opened Tables
  import opened Schema
  import opened Paystack

  datatype InitBody = InitBody(message: string, data: InitReply)

  datatype VerifyBody = VerifyBody(message: string, data: Payment)

  const MISSING_REFERENCE := Error(400, "Missing transaction reference", false)

  /** dict.get: the value under key, or null when there is none. */
  function Get(body: map<string, Value>, key: string): Value {
    if key in body then body[key] else Null
  }

  /** The payload posted to the gateway: amount, email and callbackUrl from
      the request, repeated with the name in the metadata; no currency and
      no channels. */
  function PaymentDetails(body: map<string, Value>): (d: InitPayload)
    ensures d.currency.None? && d.channels.None?
    ensures d.amount == Get(body, "amount") && d.email == Get(body, "email")
    ensures d.callbackUrl == Get(body, "callbackUrl")
    ensures d.metadata.Keys == {"amount", "email", "name"}
    ensures d.metadata["amount"] == d.amount && d.metadata["email"] == d.email
    ensures d.metadata["name"] == Get(body, "name")
  {
    var amount := Get(body, "amount");
    var email := Get(body, "email");
    InitPayload(None, amount, email, Get(body, "callbackUrl"), None,
      map["amount" := amount, "email" := email, "name" := Get(body, "name")])
  }

  /** POST /initialize. `body` is None when the request body is not a JSON
      object (request.json() or .get raises). No table is touched. */
  function InitializePayment(body: Option<map<string, Value>>, gateway: Gateway): (r: (Result<InitBody>, seq<Call>))
    ensures body.None? ==> r == (Fail(UNEXPECTED), [])
    ensures body.Some? ==> r.1 == [InitializeCall(PaymentDetails(body.value))]
    ensures r.0.Ok? <==> body.Some? && gateway.initialize(PaymentDetails(body.value)).Initialized?
    ensures r.0.Ok? ==> r.0.value == InitBody("Payment initialized successfully", gateway.initialize(r.1[0].payload))
    ensures r.0.Fail? ==> r.0.error == UNEXPECTED
  {
    match body
    case None => (Fail(UNEXPECTED), [])
    case Some(fields) =>
      var details := PaymentDetails(fields);
      var reply := gateway.initialize(details);
      if reply.InitFailed? then (Fail(UNEXPECTED), [InitializeCall(details)])
      else (Ok(InitBody("Payment initialized successfully", reply)), [InitializeCall(details)])
  }

  /** The metadata keys verify reads with [], each of which raises KeyError when absent. */
  predicate HasPaymentMetadata(metadata: map<string, Value>) {
    "email" in metadata && "amount" in metadata && "name" in metadata
  }

  /** A verification that verify turns into a stored payment. */
  predicate Settled(reply: VerifyReply) {
    reply.Verified? && HasPaymentMetadata(reply.metadata) && reply.status == SUCCESS
  }

  /** The row verify stores for a settled verification. */
  function Recorded(reply: VerifyReply): (p: Payment)
    requires reply.Verified? && HasPaymentMetadata(reply.metadata)
    ensures p.reference == reply.reference
    ensures p.amount == reply.metadata["amount"] && p.email == reply.metadata["email"]
    ensures p.name == reply.metadata["name"]
  {
    Payment(reply.metadata["amount"], reply.metadata["email"], reply.metadata["name"], reply.reference)
  }

  /** GET /verify. */
  method VerifyPayment(db: Session, reference: string, gateway: Gateway) returns (r: Result<VerifyBody>, calls: seq<Call>)
    requires Tables.Valid(db.payments)
    modifies db`payments
    ensures Tables.Valid(db.payments)
    ensures reference == "" ==> r == Fail(MISSING_REFERENCE) && calls == []
    ensures reference != "" ==> calls == [VerifyCall(reference)]
    ensures r.Fail? ==> db.payments == old(db.payments)
    ensures reference != "" ==>
      var reply := gateway.verify(reference);
      && (reply.VerifyFailed? || !HasPaymentMetadata(reply.metadata) ==> r == Fail(UNEXPECTED))
      && (reply.Verified? && HasPaymentMetadata(reply.metadata) && reply.status != SUCCESS ==>
            r == Raise(400, "Transaction: " + reply.status))
    ensures r.Ok? <==> reference != "" && Settled(gateway.verify(reference))
    ensures r.Ok? ==>
      var row := Recorded(gateway.verify(reference));
      db.payments == Insert(old(db.payments), row).0 && r.value == VerifyBody("Payment verified", row)
  {
    if reference == "" {
      return Fail(MISSING_REFERENCE), [];
    }
    calls := [VerifyCall(reference)];
    var reply := gateway.verify(reference);
    if reply.VerifyFailed? || !HasPaymentMetadata(reply.metadata) {
      return Fail(UNEXPECTED), calls;
    }
    if reply.status != SUCCESS {
      return Raise(400, "Transaction: " + reply.status), calls;
    }
    var row := Recorded(reply);
    var (payments', _) := Insert(db.payments, row);
    db.payments := payments';
    r := Ok(VerifyBody("Payment verified", row));
  }

  function ByReference(reference: string): Payment -> bool {
    (p: Payment) => p.reference == reference
  }

  /** The payment table after n successful verifications that all store row. */
  function Replay(t: Table<Payment>, row: Payment, n: nat): (t': Table<Payment>)
    requires Tables.Valid(t)
    ensures Tables.Valid(t')
  {
    if n == 0 then t else Insert(Replay(t, row, n - 1), row).0
  }

  /** Verifying the same reference n times stores n rows for it: nothing
      detects the earlier ones. */
  lemma {:induction false} ReplayStoresEveryTime(t: Table<Payment>, row: Payment, n: nat)
    requires Tables.Valid(t)
    ensures |Where(Replay(t, row, n), ByReference(row.reference))|
         == |Where(t, ByReference(row.reference))| + n
  {
    if n > 0 {
      ReplayStoresEveryTime(t, row, n - 1);
      CountAfterInsert(Replay(t, row, n - 1), ByReference(row.reference), row);
    }
  }
}
