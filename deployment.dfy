/**
 * `fill_deployment_definition`: point a borrowed deployment object at an image tag, in place.
 * The nested client objects are flattened into one class; `replicas` stands for every field
 * the function does not touch.
 */
module Deployments {
  import opened Wrappers

  /** The placeholder name the source assigns to every deployment. */
  const DEPLOYMENT_NAME: string := "???"
  const REVISION_HISTORY_LIMIT: int := 5

  datatype Container = Container(name: string, image: string)

  datatype FillError = EmptyContainerList

  /** The value a deployment object holds. */
  datatype Manifest = Manifest(
    name: string,                  // metadata.name
    labels: map<string, string>,   // spec.template.metadata.labels
    revisionHistoryLimit: int,     // spec.revisionHistoryLimit
    replicas: int,                 // spec.replicas
    containers: seq<Container>)    // spec.template.spec.containers

  /**
   * The manifest after `fill_deployment_definition`. The name, the label and the limit are set
   * before the first container is indexed, so they are set even when that indexing fails.
   */
  function Filled(m: Manifest, tag: string): (r: Manifest)
    ensures r.name == DEPLOYMENT_NAME && r.labels.Keys == m.labels.Keys + {"name"}
    ensures |r.containers| == |m.containers| && r.replicas == m.replicas
    ensures m.containers != [] ==> r.containers[0].image == tag
  {
    var named := m.(name := DEPLOYMENT_NAME,
                    labels := m.labels["name" := DEPLOYMENT_NAME],
                    revisionHistoryLimit := REVISION_HISTORY_LIMIT);
    if m.containers == [] then named
    else named.(containers := m.containers[0 := m.containers[0].(image := tag)])
  }

  class Deployment {
    var name: string
    var labels: map<string, string>
    var revisionHistoryLimit: int
    var replicas: int
    var containers: array<Container>

    constructor (m: Manifest)
      ensures View() == m && fresh(containers)
    {
      name := m.name;
      labels := m.labels;
      revisionHistoryLimit := m.revisionHistoryLimit;
      replicas := m.replicas;
      containers := new Container[|m.containers|](i requires 0 <= i < |m.containers| => m.containers[i]);
    }

    function View(): Manifest
      reads this, containers
    {
      Manifest(name, labels, revisionHistoryLimit, replicas, containers[..])
    }
  }

  /**
   * `fill_deployment_definition(deployment, tag)`: returns the same object, or fails with the
   * IndexError of `containers[0]` after the first three assignments took effect.
   */
  method FillDeploymentDefinition(d: Deployment, tag: string) returns (r: Result<Deployment, FillError>)
    modifies d, d.containers
    ensures d.containers == old(d.containers)
    ensures d.View() == Filled(old(d.View()), tag)
    ensures d.name == DEPLOYMENT_NAME && d.labels == old(d.labels)["name" := DEPLOYMENT_NAME]
    ensures d.revisionHistoryLimit == REVISION_HISTORY_LIMIT && d.replicas == old(d.replicas)
    ensures d.containers.Length > 0 ==> d.containers[0] == old(d.containers[0]).(image := tag)
    ensures forall i :: 0 < i < d.containers.Length ==> d.containers[i] == old(d.containers[i])
    ensures r == if d.containers.Length == 0 then Failure(EmptyContainerList) else Success(d)
  {
    d.name := DEPLOYMENT_NAME;
    d.labels := d.labels["name" := DEPLOYMENT_NAME];
    d.revisionHistoryLimit := REVISION_HISTORY_LIMIT;
    if d.containers.Length == 0 {
      return Failure(EmptyContainerList);
    }
    d.containers[0] := d.containers[0].(image := tag);
    return Success(d);
  }

  // ---- Properties of the filled manifest ----

  /** The deployment name and its `name` label always agree afterwards, and the limit is 5. */
  lemma FilledIdentity(m: Manifest, tag: string)
    ensures var f := Filled(m, tag);
            && f.name == DEPLOYMENT_NAME && "name" in f.labels && f.labels["name"] == f.name
            && f.revisionHistoryLimit == 5
  {
  }

  /** Only the first container is retagged; every other container and label stays as it was. */
  lemma FilledTouchesOnlyFirstContainer(m: Manifest, tag: string)
    ensures var f := Filled(m, tag);
            && |f.containers| == |m.containers| && f.replicas == m.replicas
            && (m.containers != [] ==> f.containers[0].image == tag && f.containers[0].name == m.containers[0].name)
            && (forall i :: 0 < i < |m.containers| ==> f.containers[i] == m.containers[i])
            && (forall k :: k != "name" ==> (k in f.labels <==> k in m.labels))
            && (forall k :: k != "name" && k in m.labels ==> f.labels[k] == m.labels[k])
  {
  }

  /** Filling again with another tag is the same as filling once with that tag: the last tag wins. */
  lemma FilledLastTagWins(m: Manifest, tag1: string, tag2: string)
    ensures Filled(Filled(m, tag1), tag2) == Filled(m, tag2)
  {
  }

  /** A filled manifest is a fixed point: filling it again with the same tag changes nothing. */
  lemma FilledIdempotent(m: Manifest, tag: string)
    ensures Filled(Filled(m, tag), tag) == Filled(m, tag)
  {
    FilledLastTagWins(m, tag, tag);
  }
}
