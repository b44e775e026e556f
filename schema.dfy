/** The tables the controllers read and write, as one database session.
    The ORM classes themselves are not part of this model; the row types
    below carry the columns the controllers set or read. */
module Schema {
  import opened Http
  import opened Tables
  import Paystack

  datatype User = User(
    username: string,
    email: string,
    firstName: string,
    lastName: string,
    hashedPassword: string)

  datatype HostingPlan = HostingPlan(
    title: string,
    subtitle: string,
    monthlyPrice: int,
    annualPrice: int)

  datatype PlanFeature = PlanFeature(planId: nat, feature: string)

  /** A row of the hosting payment table. */
  datatype HostingPayment = HostingPayment(
    email: string,
    fullName: string,
    phone: string,
    planId: nat,
    reference: string,
    status: string)

  /** A row of the payment table written by the legacy Paystack controller;
      its values come from the gateway's metadata unchecked. */
  datatype Payment = Payment(
    amount: Paystack.Value,
    email: Paystack.Value,
    name: Paystack.Value,
    reference: string)

  /** An event; tagIds is its many-to-many tag list, in the order it was built. */
  datatype Event = Event(
    title: string,
    paragraph: string,
    image: string,
    venue: string,
    eventType: string,
    eventDate: string,
    description: string,
    registrationLink: string,
    tagIds: seq<nat>)

  datatype Tag = Tag(tagName: string)

  /** An image row; its title is NULL when the writer did not set one. */
  datatype EventImage = EventImage(
    eventId: nat,
    imageUrl: string,
    imageDescription: string,
    imageTitle: Option<string>)

  /** The committed state of the database. A handler's writes become part of
      it at `db.commit()`; what is only added to the session and never
      committed is lost when the session closes. */
  class Session {
    var users: Table<User>
    var plans: Table<HostingPlan>
    var features: Table<PlanFeature>
    var hostingPayments: Table<HostingPayment>
    var payments: Table<Payment>
    var events: Table<Event>
    var tags: Table<Tag>
    var images: Table<EventImage>

    /** A fresh database: every table empty. */
    constructor ()
      ensures users == Empty() && plans == Empty() && features == Empty()
      ensures hostingPayments == Empty() && payments == Empty()
      ensures events == Empty() && tags == Empty() && images == Empty()
    {
      users := Empty();
      plans := Empty();
      features := Empty();
      hostingPayments := Empty();
      payments := Empty();
      events := Empty();
      tags := Empty();
      images := Empty();
    }
  }
}
