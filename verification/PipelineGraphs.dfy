/** Engine-neutral pipelines, crates/calliope-core/src/pipeline_diff.rs. */
module PipelineGraphs {
  import opened Prelude

  datatype Caps = Caps(mediaType: string, fields: map<string, string>)

  datatype Element = Element(name: string)

  /** `from` and `to` are places in the list of elements. */
  datatype Link = Link(from: nat, to: nat, caps: Option<Caps>)

  datatype PipelineGraph = PipelineGraph(elements: seq<Element>, links: seq<Link>) {
    predicate WellFormed() {
      forall i :: 0 <= i < |links| ==> links[i].from < |elements| && links[i].to < |elements|
    }
  }
}
