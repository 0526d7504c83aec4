/** The tag-cluster registry as the scripts read it from tag_clusters.json:
    an ordered list of clusters. */
module Clusters {

  /** One named group of related tags. `exemplars` is informational only;
      `tags` is the member list the classifier matches against. */
  datatype TagCluster = TagCluster(id: int, name: string, exemplars: seq<string>, tags: seq<string>)

  /** No two clusters of the registry share an id. The scripts do not check
      this; lemmas that need it say so. */
  predicate UniqueIds(registry: seq<TagCluster>)
  {
    forall i, j :: 0 <= i < j < |registry| ==> registry[i].id != registry[j].id
  }
}
