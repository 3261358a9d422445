/** The caps on a link that two engines both built, crates/calliope-core/src/pipeline_diff.rs. */
module CapsDiffs {
  import opened Prelude
  import opened PipelineGraphs

  type Fields = map<string, string>

  /** `conflicts` has both sides' values of a field. */
  datatype CapsDiff = CapsDiff(mediaTypeDiffers: bool, conflicts: map<string, (string, string)>, onlyLeft: Fields,
                               onlyRight: Fields) {
    predicate IsReal() {
      mediaTypeDiffers || conflicts != map[]
    }

    predicate IsInformational() {
      onlyLeft != map[] || onlyRight != map[]
    }

    predicate IsClean() {
      !IsReal() && !IsInformational()
    }
  }

  function Conflicts(left: Fields, right: Fields): map<string, (string, string)> {
    map k | k in left && k in right && left[k] != right[k] :: (left[k], right[k])
  }

  /** The fields that the other side does not have. */
  function Only(fields: Fields, other: Fields): Fields {
    map k | k in fields && k !in other :: fields[k]
  }

  function Compared(left: Option<Caps>, right: Option<Caps>): CapsDiff {
    if left.Some? && right.Some? then
      var l, r := left.value, right.value;
      CapsDiff(l.mediaType != r.mediaType, Conflicts(l.fields, r.fields), Only(l.fields, r.fields), Only(r.fields, l.fields))
    else
      CapsDiff(false, map[], if left.Some? then left.value.fields else map[],
               if right.Some? then right.value.fields else map[])
  }

  // ----- the comparison -----

  function Restrict<V>(m: map<string, V>, keys: set<string>): map<string, V> {
    map k | k in m && k in keys :: m[k]
  }

  method CompareFields(left: Fields, right: Fields) returns (conflicts: map<string, (string, string)>, onlyLeft: Fields)
    ensures conflicts == Conflicts(left, right) && onlyLeft == Only(left, right)
  {
    conflicts, onlyLeft := map[], map[];
    var todo := left.Keys;
    while todo != {}
      invariant todo <= left.Keys
      invariant conflicts == Restrict(Conflicts(left, right), left.Keys - todo)
      invariant onlyLeft == Restrict(Only(left, right), left.Keys - todo)
      decreases todo
    {
      var field :| field in todo;
      if field in right {
        if right[field] != left[field] {
          conflicts := conflicts[field := (left[field], right[field])];
        }
      } else {
        onlyLeft := onlyLeft[field := left[field]];
      }
      todo := todo - {field};
    }
  }

  method CompareCaps(left: Option<Caps>, right: Option<Caps>) returns (diff: CapsDiff)
    ensures diff == Compared(left, right)
  {
    match (left, right)
    case (Some(l), None) => diff := CapsDiff(false, map[], l.fields, map[]);
    case (None, Some(r)) => diff := CapsDiff(false, map[], map[], r.fields);
    case (None, None) => diff := CapsDiff(false, map[], map[], map[]);
    case (Some(l), Some(r)) =>
      var conflicts, onlyLeft := CompareFields(l.fields, r.fields);
      var onlyRight: Fields := map[];
      var todo := r.fields.Keys;
      while todo != {}
        invariant todo <= r.fields.Keys
        invariant onlyRight == Restrict(Only(r.fields, l.fields), r.fields.Keys - todo)
        decreases todo
      {
        var field :| field in todo;
        if field !in l.fields {
          onlyRight := onlyRight[field := r.fields[field]];
        }
        todo := todo - {field};
      }
      diff := CapsDiff(l.mediaType != r.mediaType, conflicts, onlyLeft, onlyRight);
  }

  // ----- what a comparison says -----

  /** The other side of a comparison: one side's fields changed as the diff says. */
  function Patched(right: Fields, diff: CapsDiff): Fields {
    map k | k in right.Keys - diff.onlyRight.Keys + diff.onlyLeft.Keys ::
      if k in diff.onlyLeft then diff.onlyLeft[k]
      else if k in diff.conflicts then diff.conflicts[k].0
      else right[k]
  }

  /** The diff has all there is to know: with it one side's fields give the other's. */
  lemma DiffRebuildsLeft(left: Caps, right: Caps)
    ensures Patched(right.fields, Compared(Some(left), Some(right))) == left.fields
  {
    var diff := Compared(Some(left), Some(right));
    var patched := Patched(right.fields, diff);
    forall k
      ensures k in patched <==> k in left.fields
      ensures k in patched ==> patched[k] == left.fields[k]
    {
      assert k in diff.onlyLeft <==> k in left.fields && k !in right.fields;
      assert k in diff.onlyRight <==> k in right.fields && k !in left.fields;
      assert k in diff.conflicts <==> k in left.fields && k in right.fields && left.fields[k] != right.fields[k];
    }
  }

  function Mirrored(diff: CapsDiff): CapsDiff {
    CapsDiff(diff.mediaTypeDiffers, map k | k in diff.conflicts :: (diff.conflicts[k].1, diff.conflicts[k].0),
             diff.onlyRight, diff.onlyLeft)
  }

  lemma SwappingMirrors(left: Option<Caps>, right: Option<Caps>)
    ensures Compared(right, left) == Mirrored(Compared(left, right))
  {
    if left.Some? && right.Some? {
      var l, r := left.value.fields, right.value.fields;
      var one, other := Conflicts(l, r), Conflicts(r, l);
      forall k
        ensures k in one <==> k in other
      {
      }
    }
  }

  /** The two sides conflict exactly when both have caps, of different types or with different values of a field. */
  lemma RealMeans(left: Option<Caps>, right: Option<Caps>)
    ensures Compared(left, right).IsReal() <==>
            && left.Some? && right.Some?
            && (left.value.mediaType != right.value.mediaType || exists k :: InConflict(left.value, right.value, k))
  {
    if left.Some? && right.Some? {
      var conflicts := Conflicts(left.value.fields, right.value.fields);
      forall k
        ensures k in conflicts <==> InConflict(left.value, right.value, k)
      {
      }
      if k :| InConflict(left.value, right.value, k) {
        assert k in conflicts;
      } else {
        assert conflicts.Keys == {};
      }
    }
  }

  predicate InConflict(left: Caps, right: Caps, k: string) {
    k in left.fields && k in right.fields && left.fields[k] != right.fields[k]
  }

  /** Nothing is reported exactly when both sides say the same, or only one has caps and they have no field. In the
      latter case that media type goes unreported. */
  lemma CleanMeans(left: Option<Caps>, right: Option<Caps>)
    ensures Compared(left, right).IsClean() <==>
            || left == right
            || (left.None? && right.Some? && right.value.fields == map[])
            || (left.Some? && right.None? && left.value.fields == map[])
  {
    if left.Some? && right.Some? {
      CleanIsSame(left.value, right.value);
    }
  }

  lemma CleanIsSame(left: Caps, right: Caps)
    ensures Compared(Some(left), Some(right)).IsClean() <==> left == right
  {
    var diff := Compared(Some(left), Some(right));
    DiffRebuildsLeft(left, right);
    if diff.IsClean() {
      NothingToPatch(right.fields, diff);
    }
    NothingConflicts(right.fields);
  }

  lemma NothingToPatch(fields: Fields, diff: CapsDiff)
    requires diff.IsClean()
    ensures Patched(fields, diff) == fields
  {
  }

  lemma NothingConflicts(fields: Fields)
    ensures Conflicts(fields, fields) == map[] && Only(fields, fields) == map[]
  {
    assert Conflicts(fields, fields).Keys == {} && Only(fields, fields).Keys == {};
  }
}
