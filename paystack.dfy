/** The Paystack gateway as the controllers see it. Its HTTP client is not
    modelled: each of its two operations is an oracle that answers a request
    either with the JSON reply of a 2xx response or with the failure that
    `raise_for_status` (or the network) raises. */
module Paystack {
  import opened Http

  /** A JSON scalar as it travels in request bodies and payment metadata. */
  datatype Value = Str(s: string) | Num(n: int) | Null

  /** The JSON body posted to /transaction/initialize. The hosting controller
      sends a currency and payment channels; the legacy controller sends neither. */
  datatype InitPayload = InitPayload(
    currency: Option<string>,
    amount: Value,
    email: Value,
    callbackUrl: Value,
    channels: Option<seq<string>>,
    metadata: map<string, Value>)

  /** The reply to initialize: `data.reference` of a 2xx reply, or the error raised. */
  datatype InitReply = Initialized(reference: string) | InitFailed(message: string)

  /** The reply to verify: `data.status`, `data.reference` and `data.metadata`
      of a 2xx reply, or the error raised. */
  datatype VerifyReply =
    | Verified(status: string, reference: string, metadata: map<string, Value>)
    | VerifyFailed(message: string)

  /** The gateway's answers, fixed for the duration of one request. */
  datatype Gateway = Gateway(initialize: InitPayload -> InitReply, verify: string -> VerifyReply)

  /** An outbound call a handler made, in the order it made them. */
  datatype Call = InitializeCall(payload: InitPayload) | VerifyCall(reference: string)

  const SUCCESS := "success"
}
