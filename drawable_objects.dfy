/** A drawable object together with its attribute values, and the static
    helpers that edit a multi-object selection: batch Set, batch Update and
    the mixed-value resolution GetStringValue. */
module DrawableObjects {
  import opened DrawableObjectFlags

  /** DrawableObjectAttributeTotal, the number of attribute kinds. The
      enumeration is declared outside the header this model follows;
      nothing proved here depends on the value. */
  const AttributeTotal: nat := 48

  /** One attribute value, held as its Unicode text; "" is the unset value. */
  type AttributeValue = string

  /** `AttributeValue values_[DrawableObjectAttributeTotal]`: one slot per
      attribute kind, never more and never fewer. */
  type AttributeArray = s: seq<AttributeValue> | |s| == AttributeTotal
    witness seq(AttributeTotal, _ => "")

  /** The aggregate. `G` stands for the state this model does not interpret:
      the shared drawable object and the cached geometry (label and object
      rectangles, layout and content bounds, transform, origin). */
  datatype DrawableObjectAndValues<G> = DrawableObjectAndValues(
    values: AttributeArray,
    labelText: string,
    flags: Flags,
    derived: G)
  {
    /** Single-object Set (string overload): writes one slot and nothing else. */
    function Set(attributeIndex: nat, text: AttributeValue): (r: DrawableObjectAndValues<G>)
      requires attributeIndex < AttributeTotal
      ensures r.values[attributeIndex] == text
      ensures forall a :: 0 <= a < AttributeTotal && a != attributeIndex ==> r.values[a] == values[a]
      ensures r.labelText == labelText && r.flags == flags && r.derived == derived
    {
      this.(values := values[attributeIndex := text])
    }

    /** Single-object Update: recomputes the drawable object and its cached
        state from the current values through `refresh`, which stands for
        the drawable object's own Update; the values, label text and flags stay. */
    function Update(refresh: DrawableObjectAndValues<G> -> G): (r: DrawableObjectAndValues<G>)
      ensures r.values == values && r.labelText == labelText && r.flags == flags
      ensures r.derived == refresh(this)
    {
      this.(derived := refresh(this))
    }
  }

  /** The default-constructed aggregate: every slot unset and the flags at
      FlagsInitialDefaults (selected). */
  function Default<G>(derived: G): (o: DrawableObjectAndValues<G>)
    ensures forall a :: 0 <= a < AttributeTotal ==> o.values[a] == ""
    ensures o.labelText == "" && o.flags == FlagsInitialDefaults && o.derived == derived
    ensures Has(o.flags, FlagsSelected)
  {
    DrawableObjectAndValues(seq(AttributeTotal, _ => ""), "", FlagsInitialDefaults, derived)
  }

  /** Every entry of the selection names an object of the sequence. */
  predicate ValidIndices<G>(objects: seq<DrawableObjectAndValues<G>>, indices: seq<nat>) {
    forall j :: 0 <= j < |indices| ==> indices[j] < |objects|
  }

  lemma PrefixValid<G>(objects: seq<DrawableObjectAndValues<G>>, indices: seq<nat>, k: nat)
    requires ValidIndices(objects, indices) && k <= |indices|
    ensures ValidIndices(objects, indices[..k])
  {
  }

  // ---------------------------------------------------------------------
  // Batch Set

  /** The objects after batch Set has visited `indices` in order. */
  function SetSelected<G>(objects: seq<DrawableObjectAndValues<G>>, indices: seq<nat>,
                          attributeIndex: nat, text: AttributeValue): (r: seq<DrawableObjectAndValues<G>>)
    requires ValidIndices(objects, indices) && attributeIndex < AttributeTotal
    ensures |r| == |objects|
    decreases |indices|
  {
    if |indices| == 0 then objects
    else
      var n := |indices| - 1;
      var prior := SetSelected(objects, indices[..n], attributeIndex, text);
      prior[indices[n] := prior[indices[n]].Set(attributeIndex, text)]
  }

  /** Batch Set object by object: a selected object holds `text` in the slot
      and is otherwise unchanged; every other object is unchanged. */
  lemma {:induction false} SetSelectedAt<G>(objects: seq<DrawableObjectAndValues<G>>, indices: seq<nat>,
                                            attributeIndex: nat, text: AttributeValue, i: nat)
    requires ValidIndices(objects, indices) && attributeIndex < AttributeTotal && i < |objects|
    ensures SetSelected(objects, indices, attributeIndex, text)[i]
         == if i in indices then objects[i].Set(attributeIndex, text) else objects[i]
    decreases |indices|
  {
    if |indices| > 0 {
      var n := |indices| - 1;
      SetSelectedAt(objects, indices[..n], attributeIndex, text, i);
      assert indices == indices[..n] + [indices[n]];
      assert i in indices <==> i in indices[..n] || i == indices[n];
      var o := objects[i];
      assert o.Set(attributeIndex, text).Set(attributeIndex, text) == o.Set(attributeIndex, text) by {
        assert o.values[attributeIndex := text][attributeIndex := text] == o.values[attributeIndex := text];
      }
    }
  }

  /** Batch Set: for every index in `drawableObjectsIndices`, slot
      `attributeIndex` becomes `newText`; nothing else changes. */
  method Set<G>(drawableObjects: array<DrawableObjectAndValues<G>>, drawableObjectsIndices: seq<nat>,
                attributeIndex: nat, newText: AttributeValue)
    requires forall j :: 0 <= j < |drawableObjectsIndices| ==> drawableObjectsIndices[j] < drawableObjects.Length
    requires attributeIndex < AttributeTotal
    modifies drawableObjects
    ensures drawableObjects[..] == SetSelected(old(drawableObjects[..]), drawableObjectsIndices, attributeIndex, newText)
    ensures forall i :: 0 <= i < drawableObjects.Length && i in drawableObjectsIndices ==>
              drawableObjects[i].values[attributeIndex] == newText
    ensures forall i, a :: 0 <= i < drawableObjects.Length && 0 <= a < AttributeTotal && a != attributeIndex ==>
              drawableObjects[i].values[a] == old(drawableObjects[i].values[a])
    ensures forall i :: 0 <= i < drawableObjects.Length && i !in drawableObjectsIndices ==>
              drawableObjects[i] == old(drawableObjects[i])
    ensures forall i :: 0 <= i < drawableObjects.Length ==>
              drawableObjects[i].labelText == old(drawableObjects[i].labelText) &&
              drawableObjects[i].flags == old(drawableObjects[i].flags) &&
              drawableObjects[i].derived == old(drawableObjects[i].derived)
  {
    ghost var before := drawableObjects[..];
    assert ValidIndices(before, drawableObjectsIndices);
    for k := 0 to |drawableObjectsIndices|
      invariant ValidIndices(before, drawableObjectsIndices[..k])
      invariant drawableObjects[..] == SetSelected(before, drawableObjectsIndices[..k], attributeIndex, newText)
    {
      PrefixValid(before, drawableObjectsIndices, k + 1);
      assert drawableObjectsIndices[..k + 1][..k] == drawableObjectsIndices[..k];
      var i := drawableObjectsIndices[k];
      drawableObjects[i] := drawableObjects[i].Set(attributeIndex, newText);
    }
    assert drawableObjectsIndices[..|drawableObjectsIndices|] == drawableObjectsIndices;
    forall i | 0 <= i < drawableObjects.Length
      ensures drawableObjects[i] == if i in drawableObjectsIndices then before[i].Set(attributeIndex, newText) else before[i]
    {
      SetSelectedAt(before, drawableObjectsIndices, attributeIndex, newText, i);
    }
  }

  /** Setting the same text on the same selection twice is the same as once. */
  lemma SetSelectedIdempotent<G>(objects: seq<DrawableObjectAndValues<G>>, indices: seq<nat>,
                                 attributeIndex: nat, text: AttributeValue)
    requires ValidIndices(objects, indices) && attributeIndex < AttributeTotal
    ensures ValidIndices(SetSelected(objects, indices, attributeIndex, text), indices)
    ensures var once := SetSelected(objects, indices, attributeIndex, text);
            SetSelected(once, indices, attributeIndex, text) == once
  {
    var once := SetSelected(objects, indices, attributeIndex, text);
    var twice := SetSelected(once, indices, attributeIndex, text);
    forall i | 0 <= i < |objects| ensures twice[i] == once[i] {
      SetSelectedAt(objects, indices, attributeIndex, text, i);
      SetSelectedAt(once, indices, attributeIndex, text, i);
      var o := objects[i];
      assert o.values[attributeIndex := text][attributeIndex := text] == o.values[attributeIndex := text];
    }
  }

  // ---------------------------------------------------------------------
  // Batch Update

  /** The objects after batch Update has visited `indices` in order. */
  function UpdateSelected<G>(objects: seq<DrawableObjectAndValues<G>>, indices: seq<nat>,
                             refresh: DrawableObjectAndValues<G> -> G): (r: seq<DrawableObjectAndValues<G>>)
    requires ValidIndices(objects, indices)
    ensures |r| == |objects|
    ensures forall i :: 0 <= i < |objects| && i !in indices ==> r[i] == objects[i]
    ensures forall i :: 0 <= i < |objects| ==>
              r[i].values == objects[i].values && r[i].labelText == objects[i].labelText && r[i].flags == objects[i].flags
    decreases |indices|
  {
    if |indices| == 0 then objects
    else
      var n := |indices| - 1;
      assert indices == indices[..n] + [indices[n]];
      var prior := UpdateSelected(objects, indices[..n], refresh);
      prior[indices[n] := prior[indices[n]].Update(refresh)]
  }

  /** Single-object Update is idempotent: a second call recomputes the same state. */
  ghost predicate IdempotentRefresh<G(!new)>(refresh: DrawableObjectAndValues<G> -> G) {
    forall o: DrawableObjectAndValues<G> :: o.Update(refresh).Update(refresh) == o.Update(refresh)
  }

  /** With an idempotent single-object Update, batch Update updates every
      selected object exactly once in effect, however often it is listed. */
  lemma {:induction false} UpdateSelectedAt<G(!new)>(objects: seq<DrawableObjectAndValues<G>>, indices: seq<nat>,
                                               refresh: DrawableObjectAndValues<G> -> G, i: nat)
    requires ValidIndices(objects, indices) && IdempotentRefresh(refresh) && i < |objects|
    ensures UpdateSelected(objects, indices, refresh)[i]
         == if i in indices then objects[i].Update(refresh) else objects[i]
    decreases |indices|
  {
    if |indices| > 0 {
      var n := |indices| - 1;
      UpdateSelectedAt(objects, indices[..n], refresh, i);
      assert indices == indices[..n] + [indices[n]];
      assert i in indices <==> i in indices[..n] || i == indices[n];
      var o := objects[i];
      assert o.Update(refresh).Update(refresh) == o.Update(refresh);
    }
  }

  /** Over a selection without repeated entries, batch Update applies the
      single-object Update exactly once to each listed object, whatever the
      refresh does. */
  lemma {:induction false} UpdateSelectedDistinctAt<G>(objects: seq<DrawableObjectAndValues<G>>, indices: seq<nat>,
                                                       refresh: DrawableObjectAndValues<G> -> G, i: nat)
    requires ValidIndices(objects, indices) && i < |objects|
    requires forall a, b :: 0 <= a < b < |indices| ==> indices[a] != indices[b]
    ensures UpdateSelected(objects, indices, refresh)[i]
         == if i in indices then objects[i].Update(refresh) else objects[i]
    decreases |indices|
  {
    if |indices| > 0 {
      var n := |indices| - 1;
      UpdateSelectedDistinctAt(objects, indices[..n], refresh, i);
      assert indices == indices[..n] + [indices[n]];
      assert i in indices <==> i in indices[..n] || i == indices[n];
      if i == indices[n] {
        assert forall a :: 0 <= a < n ==> indices[..n][a] != i;
      }
    }
  }

  /** With an idempotent single-object Update, repeating batch Update on the
      same selection changes nothing more. */
  lemma UpdateSelectedTwice<G(!new)>(objects: seq<DrawableObjectAndValues<G>>, indices: seq<nat>,
                               refresh: DrawableObjectAndValues<G> -> G)
    requires ValidIndices(objects, indices) && IdempotentRefresh(refresh)
    ensures ValidIndices(UpdateSelected(objects, indices, refresh), indices)
    ensures var once := UpdateSelected(objects, indices, refresh);
            UpdateSelected(once, indices, refresh) == once
  {
    var once := UpdateSelected(objects, indices, refresh);
    var twice := UpdateSelected(once, indices, refresh);
    forall i | 0 <= i < |objects| ensures twice[i] == once[i] {
      UpdateSelectedAt(objects, indices, refresh, i);
      UpdateSelectedAt(once, indices, refresh, i);
    }
  }

  /** Batch Update: single-object Update on exactly the listed objects. */
  method Update<G>(drawableObjects: array<DrawableObjectAndValues<G>>, drawableObjectsIndices: seq<nat>,
                   refresh: DrawableObjectAndValues<G> -> G)
    requires forall j :: 0 <= j < |drawableObjectsIndices| ==> drawableObjectsIndices[j] < drawableObjects.Length
    modifies drawableObjects
    ensures drawableObjects[..] == UpdateSelected(old(drawableObjects[..]), drawableObjectsIndices, refresh)
    ensures forall i :: 0 <= i < drawableObjects.Length && i !in drawableObjectsIndices ==>
              drawableObjects[i] == old(drawableObjects[i])
    ensures forall i :: 0 <= i < drawableObjects.Length ==>
              drawableObjects[i].values == old(drawableObjects[i].values)
  {
    ghost var before := drawableObjects[..];
    assert ValidIndices(before, drawableObjectsIndices);
    for k := 0 to |drawableObjectsIndices|
      invariant ValidIndices(before, drawableObjectsIndices[..k])
      invariant drawableObjects[..] == UpdateSelected(before, drawableObjectsIndices[..k], refresh)
    {
      PrefixValid(before, drawableObjectsIndices, k + 1);
      assert drawableObjectsIndices[..k + 1][..k] == drawableObjectsIndices[..k];
      var i := drawableObjectsIndices[k];
      drawableObjects[i] := drawableObjects[i].Update(refresh);
    }
    assert drawableObjectsIndices[..|drawableObjectsIndices|] == drawableObjectsIndices;
  }

  // ---------------------------------------------------------------------
  // GetStringValue

  /** Every selected object holds the same value in slot `attributeIndex`. */
  predicate Consistent<G>(objects: seq<DrawableObjectAndValues<G>>, indices: seq<nat>, attributeIndex: nat)
    requires ValidIndices(objects, indices) && attributeIndex < AttributeTotal
  {
    forall j, k :: 0 <= j < |indices| && 0 <= k < |indices| ==>
      objects[indices[j]].values[attributeIndex] == objects[indices[k]].values[attributeIndex]
  }

  /** The scan of the selection: true exactly when every listed object holds `common`. */
  function AllHold<G>(objects: seq<DrawableObjectAndValues<G>>, indices: seq<nat>,
                      attributeIndex: nat, common: AttributeValue): (agree: bool)
    requires ValidIndices(objects, indices) && attributeIndex < AttributeTotal
    ensures agree <==> forall j :: 0 <= j < |indices| ==> objects[indices[j]].values[attributeIndex] == common
    decreases |indices|
  {
    |indices| == 0 ||
    (objects[indices[0]].values[attributeIndex] == common && AllHold(objects, indices[1..], attributeIndex, common))
  }

  /** The value a shared property editor shows for slot `attributeIndex`:
      the common value when every selected object agrees, otherwise (and for
      an empty selection) `defaultStringIfMixedValues`. */
  function GetStringValue<G>(drawableObjects: seq<DrawableObjectAndValues<G>>, drawableObjectIndices: seq<nat>,
                             attributeIndex: nat, defaultStringIfMixedValues: AttributeValue): (r: AttributeValue)
    requires ValidIndices(drawableObjects, drawableObjectIndices) && attributeIndex < AttributeTotal
    ensures |drawableObjectIndices| == 0 ==> r == defaultStringIfMixedValues
    ensures Consistent(drawableObjects, drawableObjectIndices, attributeIndex) ==>
              forall j :: 0 <= j < |drawableObjectIndices| ==>
                r == drawableObjects[drawableObjectIndices[j]].values[attributeIndex]
    ensures !Consistent(drawableObjects, drawableObjectIndices, attributeIndex) ==> r == defaultStringIfMixedValues
  {
    if |drawableObjectIndices| == 0 then defaultStringIfMixedValues
    else
      var common := drawableObjects[drawableObjectIndices[0]].values[attributeIndex];
      if AllHold(drawableObjects, drawableObjectIndices, attributeIndex, common) then common
      else defaultStringIfMixedValues
  }

  /** Two selected objects that disagree make the result the default. */
  lemma GetStringValueMixed<G>(objects: seq<DrawableObjectAndValues<G>>, indices: seq<nat>,
                               attributeIndex: nat, defaultIfMixed: AttributeValue, j: nat, k: nat)
    requires ValidIndices(objects, indices) && attributeIndex < AttributeTotal
    requires j < |indices| && k < |indices|
    requires objects[indices[j]].values[attributeIndex] != objects[indices[k]].values[attributeIndex]
    ensures GetStringValue(objects, indices, attributeIndex, defaultIfMixed) == defaultIfMixed
  {
  }

  /** A result other than the default is the value of every selected object. */
  lemma GetStringValueNotDefault<G>(objects: seq<DrawableObjectAndValues<G>>, indices: seq<nat>,
                                    attributeIndex: nat, defaultIfMixed: AttributeValue)
    requires ValidIndices(objects, indices) && attributeIndex < AttributeTotal
    requires GetStringValue(objects, indices, attributeIndex, defaultIfMixed) != defaultIfMixed
    ensures |indices| > 0 && Consistent(objects, indices, attributeIndex)
    ensures forall j :: 0 <= j < |indices| ==>
              objects[indices[j]].values[attributeIndex] == GetStringValue(objects, indices, attributeIndex, defaultIfMixed)
  {
  }

  /** The order of the selection and repeated entries do not matter: two
      selections naming the same objects resolve to the same value. */
  lemma {:induction false} GetStringValueOrderIrrelevant<G>(objects: seq<DrawableObjectAndValues<G>>,
                                                            p: seq<nat>, q: seq<nat>,
                                                            attributeIndex: nat, defaultIfMixed: AttributeValue)
    requires ValidIndices(objects, p) && ValidIndices(objects, q) && attributeIndex < AttributeTotal
    requires forall i :: i in p <==> i in q
    ensures GetStringValue(objects, p, attributeIndex, defaultIfMixed)
         == GetStringValue(objects, q, attributeIndex, defaultIfMixed)
  {
    assert |p| == 0 <==> |q| == 0 by {
      if |q| > 0 { assert q[0] in p; }
      if |p| > 0 { assert p[0] in q; }
    }
    if Consistent(objects, p, attributeIndex) && |p| > 0 {
      forall j, k | 0 <= j < |q| && 0 <= k < |q|
        ensures objects[q[j]].values[attributeIndex] == objects[q[k]].values[attributeIndex]
      {
        assert q[j] in p && q[k] in p;
        var jp :| 0 <= jp < |p| && p[jp] == q[j];
        var kp :| 0 <= kp < |p| && p[kp] == q[k];
      }
      assert q[0] in p;
      var jp :| 0 <= jp < |p| && p[jp] == q[0];
    } else if |p| > 0 {
      var j, k :| 0 <= j < |p| && 0 <= k < |p| &&
                  objects[p[j]].values[attributeIndex] != objects[p[k]].values[attributeIndex];
      assert p[j] in q && p[k] in q;
      var jq :| 0 <= jq < |q| && q[jq] == p[j];
      var kq :| 0 <= kq < |q| && q[kq] == p[k];
      GetStringValueMixed(objects, q, attributeIndex, defaultIfMixed, jq, kq);
    }
  }

  /** After batch Set, the editor over any non-empty part of that selection
      shows the text just set. */
  lemma SetThenGetStringValue<G>(objects: seq<DrawableObjectAndValues<G>>, indices: seq<nat>, shown: seq<nat>,
                                 attributeIndex: nat, text: AttributeValue, defaultIfMixed: AttributeValue)
    requires ValidIndices(objects, indices) && attributeIndex < AttributeTotal
    requires |shown| > 0 && forall j :: 0 <= j < |shown| ==> shown[j] in indices
    ensures ValidIndices(SetSelected(objects, indices, attributeIndex, text), shown)
    ensures GetStringValue(SetSelected(objects, indices, attributeIndex, text), shown, attributeIndex, defaultIfMixed)
         == text
  {
    var after := SetSelected(objects, indices, attributeIndex, text);
    forall j | 0 <= j < |shown| ensures shown[j] < |after| && after[shown[j]].values[attributeIndex] == text {
      var jj :| 0 <= jj < |indices| && indices[jj] == shown[j];
      SetSelectedAt(objects, indices, attributeIndex, text, shown[j]);
    }
  }

  /** Batch Update never changes what the editor shows. */
  lemma UpdateKeepsStringValue<G>(objects: seq<DrawableObjectAndValues<G>>, indices: seq<nat>, shown: seq<nat>,
                                  refresh: DrawableObjectAndValues<G> -> G,
                                  attributeIndex: nat, defaultIfMixed: AttributeValue)
    requires ValidIndices(objects, indices) && ValidIndices(objects, shown) && attributeIndex < AttributeTotal
    ensures ValidIndices(UpdateSelected(objects, indices, refresh), shown)
    ensures GetStringValue(UpdateSelected(objects, indices, refresh), shown, attributeIndex, defaultIfMixed)
         == GetStringValue(objects, shown, attributeIndex, defaultIfMixed)
  {
    var after := UpdateSelected(objects, indices, refresh);
    assert forall j :: 0 <= j < |shown| ==> after[shown[j]].values == objects[shown[j]].values;
  }
}
