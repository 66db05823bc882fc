/** Label-bank shard helpers: the existence check before loading, and
    fitting an embedding to a target dimension. */
module Loader {
  import opened Base

  /** Which persisted index files a shard directory holds. */
  datatype ShardFiles = ShardFiles(hasFaissIndex: bool, hasJsonlIndex: bool)

  /** `load_shard`'s guard: loading proceeds only when at least one index
      file exists. */
  function CheckShard(files: ShardFiles): (r: Result<ShardFiles>)
    ensures r.Err? <==> !files.hasFaissIndex && !files.hasJsonlIndex
    ensures r.Err? ==> r.error.kind == FileNotFoundError
    ensures r.Ok? ==> r.value == files
  {
    if !files.hasFaissIndex && !files.hasJsonlIndex then Raise(FileNotFoundError, "no LabelBank shard")
    else Ok(files)
  }

  /** `project_embedding(vec, target_dim)`: trim or zero-pad. */
  function ProjectEmbedding(vec: seq<real>, target: int): (r: seq<real>)
    ensures target <= 0 ==> r == []
    ensures target > 0 ==> |r| == target
    ensures forall i :: 0 <= i < |r| && i < |vec| ==> r[i] == vec[i]
    ensures forall i :: |vec| <= i < |r| ==> r[i] == 0.0
  {
    if target <= 0 then []
    else if |vec| >= target then vec[..target]
    else vec + seq(target - |vec|, _ => 0.0)
  }

  /** Projecting twice to the same dimension is projecting once, and a
      vector already of the target length is returned as is. */
  lemma ProjectIdempotent(vec: seq<real>, target: int)
    ensures ProjectEmbedding(ProjectEmbedding(vec, target), target) == ProjectEmbedding(vec, target)
    ensures target > 0 && |vec| == target ==> ProjectEmbedding(vec, target) == vec
  {
  }

  /** Padding and then trimming back recovers the original vector. */
  lemma PadThenTrim(vec: seq<real>, bigger: int)
    requires |vec| > 0 && bigger >= |vec|
    ensures ProjectEmbedding(ProjectEmbedding(vec, bigger), |vec|) == vec
  {
    var p := ProjectEmbedding(vec, bigger);
    assert p[..|vec|] == vec;
  }
}
