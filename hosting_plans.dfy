/** controllers/hosting_plans_controller.py: the hosting plan catalogue. A
    plan's features live in their own table, linked by the plan's key. */
module HostingPlans {
  import opened Http
  import opened Tables
  import opened Schema

  /** The request body of POST /hosting_plan. Its id is required by the
      request model but not used: the table hands out the key. */
  datatype HostingPlansCreate = HostingPlansCreate(
    id: int,
    title: string,
    subtitle: string,
    annualPrice: int,
    monthlyPrice: int,
    features: seq<string>)

  datatype FeatureView = FeatureView(id: nat, feature: string)

  /** A plan as the GET endpoints return it, with its features. */
  datatype PlanView = PlanView(
    id: nat,
    title: string,
    subtitle: string,
    annualPrice: int,
    monthlyPrice: int,
    features: seq<FeatureView>)

  const PLAN_NOT_FOUND := Error(404, "Hosting plan not found", false)
  const PLAN_EXISTS := Error(400, "Plan already exists", false)
  const NO_CONTENT: nat := 204

  function ForPlan(planId: nat): PlanFeature -> bool {
    (f: PlanFeature) => f.planId == planId
  }

  function ByTitle(title: string): HostingPlan -> bool {
    (p: HostingPlan) => p.title == title
  }

  predicate PlanExists(plans: Table<HostingPlan>, id: int) {
    id >= 0 && id in plans.rows
  }

  /** The features with the given keys, in that order. */
  function FeatureViews(features: Table<PlanFeature>, ids: seq<nat>): (fs: seq<FeatureView>)
    requires forall i :: 0 <= i < |ids| ==> ids[i] in features.rows
    ensures |fs| == |ids|
    ensures forall i :: 0 <= i < |ids| ==> fs[i] == FeatureView(ids[i], features.rows[ids[i]].feature)
  {
    if ids == [] then []
    else FeatureViews(features, ids[..|ids| - 1]) + [FeatureView(ids[|ids| - 1], features.rows[ids[|ids| - 1]].feature)]
  }

  /** The features of a plan, each with its key, in key order. */
  function FeaturesOf(features: Table<PlanFeature>, planId: nat): (fs: seq<FeatureView>)
    requires Tables.Valid(features)
    ensures forall i :: 0 <= i < |fs| ==>
      fs[i].id in features.rows && features.rows[fs[i].id] == PlanFeature(planId, fs[i].feature)
    ensures forall i, j :: 0 <= i < j < |fs| ==> fs[i].id < fs[j].id
  {
    FeatureViews(features, Where(features, ForPlan(planId)))
  }

  /** Every feature of the plan is listed. */
  lemma FeaturesOfComplete(features: Table<PlanFeature>, planId: nat)
    requires Tables.Valid(features)
    ensures var fs := FeaturesOf(features, planId);
      forall id :: id in features.rows && features.rows[id].planId == planId ==>
        exists i :: 0 <= i < |fs| && fs[i].id == id
  {
    var ids := Where(features, ForPlan(planId));
    var fs := FeatureViews(features, ids);
    assert forall id :: id in features.rows && features.rows[id].planId == planId ==>
      exists i :: 0 <= i < |fs| && fs[i].id == id by {
      forall id | id in features.rows && features.rows[id].planId == planId
        ensures exists i :: 0 <= i < |fs| && fs[i].id == id
      {
        assert ForPlan(planId)(features.rows[id]);
        var i :| 0 <= i < |ids| && ids[i] == id;
        assert fs[i].id == id;
      }
    }
    assert FeaturesOf(features, planId) == fs;
  }

  function View(features: Table<PlanFeature>, id: nat, plan: HostingPlan): PlanView
    requires Tables.Valid(features)
  {
    PlanView(id, plan.title, plan.subtitle, plan.annualPrice, plan.monthlyPrice, FeaturesOf(features, id))
  }

  /** The views of the given plans, in that order. */
  function Views(features: Table<PlanFeature>, ps: seq<(nat, HostingPlan)>): (vs: seq<PlanView>)
    requires Tables.Valid(features)
    ensures |vs| == |ps|
  {
    if ps == [] then []
    else Views(features, ps[..|ps| - 1]) + [View(features, ps[|ps| - 1].0, ps[|ps| - 1].1)]
  }

  /** The i-th view is the view of the i-th plan. */
  lemma {:induction false} ViewAt(features: Table<PlanFeature>, ps: seq<(nat, HostingPlan)>, i: nat)
    requires Tables.Valid(features) && i < |ps|
    ensures Views(features, ps)[i] == View(features, ps[i].0, ps[i].1)
  {
    var n := |ps| - 1;
    if i < n {
      ViewAt(features, ps[..n], i);
      assert ps[..n][i] == ps[i];
    }
  }

  /** The views keep the plans' keys. */
  lemma ViewsKeys(features: Table<PlanFeature>, ps: seq<(nat, HostingPlan)>)
    requires Tables.Valid(features)
    ensures forall i :: 0 <= i < |ps| ==> Views(features, ps)[i].id == ps[i].0
  {
    forall i | 0 <= i < |ps| ensures Views(features, ps)[i].id == ps[i].0 {
      ViewAt(features, ps, i);
    }
  }

  lemma ViewsSnoc(features: Table<PlanFeature>, ps: seq<(nat, HostingPlan)>, i: nat)
    requires Tables.Valid(features) && i < |ps|
    ensures Views(features, ps[..i + 1]) == Views(features, ps[..i]) + [View(features, ps[i].0, ps[i].1)]
  {
    assert ps[..i + 1][..i] == ps[..i];
  }

  /** What GET /hosting_plans lists. */
  function Catalogue(plans: Table<HostingPlan>, features: Table<PlanFeature>): seq<PlanView>
    requires Tables.Valid(plans) && Tables.Valid(features)
  {
    Views(features, All(plans))
  }

  /** GET /hosting_plans: query every plan, then each plan's features.
      Nothing is written. */
  method GetAllHostingPlans(plans: Table<HostingPlan>, features: Table<PlanFeature>) returns (views: seq<PlanView>)
    requires Tables.Valid(plans) && Tables.Valid(features)
    ensures views == Catalogue(plans, features)
  {
    var all := All(plans);
    views := [];
    for i := 0 to |all|
      invariant views == Views(features, all[..i])
    {
      ViewsSnoc(features, all, i);
      views := views + [View(features, all[i].0, all[i].1)];
    }
    assert all[..|all|] == all;
  }

  /** The catalogue lists every plan once, in key order. */
  lemma CatalogueListsEveryPlan(plans: Table<HostingPlan>, features: Table<PlanFeature>)
    requires Tables.Valid(plans) && Tables.Valid(features)
    ensures var vs := Catalogue(plans, features);
      && (forall i :: 0 <= i < |vs| ==> vs[i].id in plans.rows)
      && (forall i, j :: 0 <= i < j < |vs| ==> vs[i].id < vs[j].id)
      && (forall id :: id in plans.rows ==> exists i :: 0 <= i < |vs| && vs[i].id == id)
  {
    var all := All(plans);
    var vs := Catalogue(plans, features);
    ViewsKeys(features, all);
    forall id | id in plans.rows ensures exists i :: 0 <= i < |vs| && vs[i].id == id {
      assert (id, plans.rows[id]) in all;
      var i :| 0 <= i < |all| && all[i] == (id, plans.rows[id]);
      assert vs[i].id == id;
    }
  }

  /** Each catalogue entry carries its own plan's fields and features. */
  lemma CatalogueShowsEachPlan(plans: Table<HostingPlan>, features: Table<PlanFeature>)
    requires Tables.Valid(plans) && Tables.Valid(features)
    ensures var vs := Catalogue(plans, features);
      forall i :: 0 <= i < |vs| ==>
        vs[i].id in plans.rows && vs[i] == View(features, vs[i].id, plans.rows[vs[i].id])
  {
    var all := All(plans);
    var vs := Catalogue(plans, features);
    forall i | 0 <= i < |vs|
      ensures vs[i].id in plans.rows && vs[i] == View(features, vs[i].id, plans.rows[vs[i].id])
    {
      ViewAt(features, all, i);
    }
  }

  /** GET /hosting_plan/{id}: the plan with its features, or 404. */
  function GetHostingPlan(plans: Table<HostingPlan>, features: Table<PlanFeature>, id: int): (r: Result<PlanView>)
    requires Tables.Valid(plans) && Tables.Valid(features)
    ensures r.Fail? <==> !PlanExists(plans, id)
    ensures r.Fail? ==> r.error == PLAN_NOT_FOUND
    ensures r.Ok? ==> r.value.id == id && r.value.title == plans.rows[id].title
    ensures r.Ok? ==> r.value.subtitle == plans.rows[id].subtitle
    ensures r.Ok? ==> r.value.annualPrice == plans.rows[id].annualPrice && r.value.monthlyPrice == plans.rows[id].monthlyPrice
    ensures r.Ok? ==> forall i :: 0 <= i < |r.value.features| ==>
      r.value.features[i].id in features.rows
      && features.rows[r.value.features[i].id] == PlanFeature(id, r.value.features[i].feature)
    ensures r.Ok? ==> forall i, j :: 0 <= i < j < |r.value.features| ==> r.value.features[i].id < r.value.features[j].id
    ensures r.Ok? ==> forall k :: k in features.rows && features.rows[k].planId == id ==>
      exists i :: 0 <= i < |r.value.features| && r.value.features[i].id == k
  {
    if !PlanExists(plans, id) then Fail(PLAN_NOT_FOUND)
    else FeaturesOfComplete(features, id); Ok(View(features, id, plans.rows[id]))
  }

  /** The feature rows create_hosting_plan adds for the plan with key planId. */
  function Linked(planId: nat, features: seq<string>): (rows: seq<PlanFeature>)
    ensures |rows| == |features|
    ensures forall i :: 0 <= i < |rows| ==> rows[i] == PlanFeature(planId, features[i])
  {
    seq(|features|, i requires 0 <= i < |features| => PlanFeature(planId, features[i]))
  }

  /** No two plans share a title. */
  ghost predicate UniqueTitles(plans: Table<HostingPlan>) {
    forall a, b :: a in plans.rows && b in plans.rows && a != b ==> plans.rows[a].title != plans.rows[b].title
  }

  /** Every feature belongs to a key the plan table has handed out. */
  ghost predicate FeaturesLinked(plans: Table<HostingPlan>, features: Table<PlanFeature>) {
    forall id :: id in features.rows ==> features.rows[id].planId < plans.nextId
  }

  /** POST /hosting_plan: refuse a title that is taken; otherwise store the
      plan, then one feature row per listed feature, linked to the new key.
      The plan is committed before its features. */
  method CreateHostingPlan(db: Session, req: HostingPlansCreate) returns (r: Result<(nat, HostingPlan)>)
    requires Tables.Valid(db.plans) && Tables.Valid(db.features)
    modifies db`plans, db`features
    ensures Tables.Valid(db.plans) && Tables.Valid(db.features)
    ensures UniqueTitles(old(db.plans)) ==> UniqueTitles(db.plans)
    ensures FeaturesLinked(old(db.plans), old(db.features)) ==> FeaturesLinked(db.plans, db.features)
    ensures First(old(db.plans), ByTitle(req.title)).Some? ==>
      r == Fail(PLAN_EXISTS) && db.plans == old(db.plans) && db.features == old(db.features)
    ensures First(old(db.plans), ByTitle(req.title)).None? ==>
      var plan := HostingPlan(req.title, req.subtitle, req.monthlyPrice, req.annualPrice);
      var id := old(db.plans).nextId;
      && db.plans == Insert(old(db.plans), plan).0
      && db.features == InsertAll(old(db.features), Linked(id, req.features)).0
      && r == Ok((id, plan))
  {
    if First(db.plans, ByTitle(req.title)).Some? {
      return Fail(PLAN_EXISTS);
    }
    var plan := HostingPlan(req.title, req.subtitle, req.monthlyPrice, req.annualPrice);
    var (plans', id) := Insert(db.plans, plan);
    db.plans := plans';
    var rows := Linked(id, req.features);
    db.features := InsertEach(db.features, rows);
    CreateKeepsInvariants(old(db.plans), old(db.features), plan, rows);
    r := Ok((id, plan));
  }

  /** Storing a plan with a fresh title and features linked to its new key
      keeps titles unique and every feature linked. */
  lemma CreateKeepsInvariants(
    plans: Table<HostingPlan>, features: Table<PlanFeature>, plan: HostingPlan, rows: seq<PlanFeature>)
    requires Tables.Valid(plans) && Tables.Valid(features)
    requires First(plans, ByTitle(plan.title)).None?
    requires forall i :: 0 <= i < |rows| ==> rows[i].planId == plans.nextId
    ensures UniqueTitles(plans) ==> UniqueTitles(Insert(plans, plan).0)
    ensures FeaturesLinked(plans, features) ==> FeaturesLinked(Insert(plans, plan).0, InsertAll(features, rows).0)
  {
    var f' := InsertAll(features, rows).0;
    assert forall id :: id in f'.rows && id !in features.rows ==> f'.rows[id].planId == plans.nextId by {
      forall id | id in f'.rows && id !in features.rows ensures f'.rows[id].planId == plans.nextId {
        assert f'.rows[features.nextId + (id - features.nextId)] == rows[id - features.nextId];
      }
    }
  }

  /** No feature is linked to the key the plan table hands out next. */
  lemma NoFeaturesForNextPlan(plans: Table<HostingPlan>, features: Table<PlanFeature>)
    requires Tables.Valid(plans) && Tables.Valid(features) && FeaturesLinked(plans, features)
    ensures Where(features, ForPlan(plans.nextId)) == []
  {
    assert forall id :: id in features.rows ==> !ForPlan(plans.nextId)(features.rows[id]);
    WhereNone(features, ForPlan(plans.nextId));
  }

  /** The keys of a batch of features for a plan that had none. */
  lemma BatchKeys(features: Table<PlanFeature>, planId: nat, rows: seq<PlanFeature>)
    requires Tables.Valid(features) && Where(features, ForPlan(planId)) == []
    requires forall i :: 0 <= i < |rows| ==> rows[i].planId == planId
    ensures Where(InsertAll(features, rows).0, ForPlan(planId)) == Range(features.nextId, |rows|)
  {
    WhereInsertAllMatching(features, ForPlan(planId), rows);
    assert [] + Range(features.nextId, |rows|) == Range(features.nextId, |rows|);
  }

  /** Listing a batch by its keys gives back its features in order. */
  lemma BatchViews(features: Table<PlanFeature>, rows: seq<PlanFeature>)
    requires Tables.Valid(features)
    ensures
      var f' := InsertAll(features, rows).0;
      var ids := Range(features.nextId, |rows|);
      && (forall i :: 0 <= i < |ids| ==> ids[i] in f'.rows)
      && var fs := FeatureViews(f', ids);
         forall i :: 0 <= i < |rows| ==> fs[i].feature == rows[i].feature
  {
    var f' := InsertAll(features, rows).0;
    var ids := Range(features.nextId, |rows|);
    forall i | 0 <= i < |ids| ensures ids[i] in f'.rows && f'.rows[ids[i]] == rows[i] {
      assert ids[i] == features.nextId + i;
    }
  }

  /** After a plan is created, its view lists exactly the submitted
      features, in the submitted order, provided every earlier feature
      belongs to an earlier plan. */
  lemma CreatedPlanListsItsFeatures(plans: Table<HostingPlan>, features: Table<PlanFeature>, req: HostingPlansCreate)
    requires Tables.Valid(plans) && Tables.Valid(features) && FeaturesLinked(plans, features)
    ensures
      var id := plans.nextId;
      var fs := FeaturesOf(InsertAll(features, Linked(id, req.features)).0, id);
      |fs| == |req.features| && forall i :: 0 <= i < |fs| ==> fs[i].feature == req.features[i]
  {
    var rows := Linked(plans.nextId, req.features);
    NoFeaturesForNextPlan(plans, features);
    BatchKeys(features, plans.nextId, rows);
    BatchViews(features, rows);
  }

  /** Creating a plan leaves the feature lists of all other plans as they were. */
  lemma CreateKeepsOtherFeatures(
    plans: Table<HostingPlan>, features: Table<PlanFeature>, req: HostingPlansCreate, other: nat)
    requires Tables.Valid(plans) && Tables.Valid(features) && other != plans.nextId
    ensures FeaturesOf(InsertAll(features, Linked(plans.nextId, req.features)).0, other) == FeaturesOf(features, other)
  {
    var rows := Linked(plans.nextId, req.features);
    WhereInsertAllOthers(features, ForPlan(other), rows);
  }

  /** DELETE /hosting_plan/{id} as written: the plan is looked up but never
      deleted, and the 404 is returned instead of raised, so the framework
      answers 204 with no body either way. Nothing is written. */
  function DeleteHostingPlan(plans: Table<HostingPlan>, id: int): (status: nat)
    requires Tables.Valid(plans)
    ensures status == NO_CONTENT
  {
    if !PlanExists(plans, id) then NO_CONTENT else NO_CONTENT
  }

  /** A deleted plan is still served afterwards: the store is the same. */
  lemma DeletedPlanStillServed(plans: Table<HostingPlan>, features: Table<PlanFeature>, id: int)
    requires Tables.Valid(plans) && Tables.Valid(features) && PlanExists(plans, id)
    ensures DeleteHostingPlan(plans, id) == NO_CONTENT
    ensures GetHostingPlan(plans, features, id).Ok?
  {
  }

  /** DELETE /hosting_plan/{id} as evidently intended: 404 for an unknown
      plan; otherwise the plan and its features are removed. */
  method DeleteHostingPlanIntended(db: Session, id: int) returns (r: Result<nat>)
    requires Tables.Valid(db.plans) && Tables.Valid(db.features)
    modifies db`plans, db`features
    ensures Tables.Valid(db.plans) && Tables.Valid(db.features)
    ensures r.Fail? <==> !PlanExists(old(db.plans), id)
    ensures r.Fail? ==> r.error == PLAN_NOT_FOUND && db.plans == old(db.plans) && db.features == old(db.features)
    ensures r.Ok? ==> r.value == NO_CONTENT
    ensures r.Ok? ==> GetHostingPlan(db.plans, db.features, id).Fail?
    ensures r.Ok? ==> FeaturesOf(db.features, id) == []
    ensures r.Ok? ==> forall k :: k in db.plans.rows <==> k in old(db.plans).rows && k != id
    ensures r.Ok? ==> forall k :: k in db.features.rows <==>
      k in old(db.features).rows && old(db.features).rows[k].planId != id
    ensures forall k :: k in db.plans.rows ==> db.plans.rows[k] == old(db.plans).rows[k]
    ensures forall k :: k in db.features.rows ==> db.features.rows[k] == old(db.features).rows[k]
  {
    if !PlanExists(db.plans, id) {
      return Fail(PLAN_NOT_FOUND);
    }
    var linked := set k | k in db.features.rows && db.features.rows[k].planId == id;
    db.features := Delete(db.features, linked);
    db.plans := Delete(db.plans, {id});
    r := Ok(NO_CONTENT);
  }
}
