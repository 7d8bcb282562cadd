/**
 * Media type descriptors: a MIME type, subtype and parameter map (the
 * `type "/" subtype *( ";" parameter )` shape of section 3.1.1.1 of
 * RFC 7231), with value equality and a mutable builder.
 */
module MediaType {
  import opened Wrappers

  const PARAMETER_SEPARATOR: string := ";"
  const MIME_SUBTYPE_SEPARATOR: string := "/"
  const PARAMETER_ASSIGNMENT: string := "="

  /**
   * A descriptor. `concreteClass` names the subclass that was instantiated,
   * which `equals` compares through `getClass()`. The parameter map is a
   * value: the copy the Java constructor takes is what a Dafny map is.
   */
  datatype MediaTypeDescriptor = MediaTypeDescriptor(
    concreteClass: string,
    mimeType: string,
    mimeSubType: string,
    mediaTypeParameters: map<string, string>)

  /** The three-argument constructor. */
  function Create(concreteClass: string, mimeType: string, mimeSubType: string,
                  parameters: map<string, string>): (d: MediaTypeDescriptor)
    ensures d.concreteClass == concreteClass
    ensures d.mimeType == mimeType && d.mimeSubType == mimeSubType
    ensures d.mediaTypeParameters == parameters
  {
    MediaTypeDescriptor(concreteClass, mimeType, mimeSubType, parameters)
  }

  /** The two-argument constructor: no parameters. */
  function CreateWithoutParameters(concreteClass: string, mimeType: string, mimeSubType: string): (d: MediaTypeDescriptor)
    ensures d.mimeType == mimeType && d.mimeSubType == mimeSubType
    ensures d.mediaTypeParameters == map[]
    ensures d == Create(concreteClass, mimeType, mimeSubType, map[])
  {
    MediaTypeDescriptor(concreteClass, mimeType, mimeSubType, map[])
  }

  // ---------------------------------------------------------------------
  // Rendering

  /** `order` lists every key of `keys` exactly once, in some order. */
  ghost predicate IsEnumeration(order: seq<string>, keys: set<string>)
  {
    && (forall i, j :: 0 <= i < j < |order| ==> order[i] != order[j])
    && (forall k :: k in keys <==> k in order)
  }

  /** `mimeType/mimeSubType`. */
  function Head(d: MediaTypeDescriptor): string
  {
    d.mimeType + MIME_SUBTYPE_SEPARATOR + d.mimeSubType
  }

  /** `;name=value`: the text one parameter adds. */
  function Segment(name: string, value: string): string
  {
    PARAMETER_SEPARATOR + name + PARAMETER_ASSIGNMENT + value
  }

  /** `;name=value` for each name of `order`, in that order. */
  function ParameterText(order: seq<string>, parameters: map<string, string>): string
    requires forall k :: k in order ==> k in parameters
  {
    if order == [] then []
    else
      var name := order[|order| - 1];
      ParameterText(order[..|order| - 1], parameters) + Segment(name, parameters[name])
  }

  /** The rendering of `d` when its parameter names are enumerated as `order`. */
  function Rendering(d: MediaTypeDescriptor, order: seq<string>): string
    requires forall k :: k in order ==> k in d.mediaTypeParameters
  {
    Head(d) + ParameterText(order, d.mediaTypeParameters)
  }

  /**
   * `toString()`: the head, then `;name=value` once per parameter name, in
   * whatever order the key set is enumerated (`order`).
   */
  method ToString(d: MediaTypeDescriptor) returns (s: string, ghost order: seq<string>)
    ensures IsEnumeration(order, d.mediaTypeParameters.Keys)
    ensures s == Rendering(d, order)
    ensures |s| >= |Head(d)| && s[..|Head(d)|] == Head(d)
    ensures s == Head(d) <==> d.mediaTypeParameters == map[]
  {
    var sb := d.mimeType;
    sb := sb + MIME_SUBTYPE_SEPARATOR;
    sb := sb + d.mimeSubType;
    var remaining := d.mediaTypeParameters.Keys;
    order := [];
    while remaining != {}
      invariant remaining <= d.mediaTypeParameters.Keys
      invariant forall i, j :: 0 <= i < j < |order| ==> order[i] != order[j]
      invariant forall k :: k in d.mediaTypeParameters.Keys <==> k in order || k in remaining
      invariant forall k :: k in order ==> k !in remaining
      invariant sb == Rendering(d, order)
      decreases |remaining|
    {
      var parameterName :| parameterName in remaining;
      ghost var previous := sb;
      sb := sb + PARAMETER_SEPARATOR;
      sb := sb + parameterName;
      sb := sb + PARAMETER_ASSIGNMENT;
      sb := sb + d.mediaTypeParameters[parameterName];
      assert sb == previous + Segment(parameterName, d.mediaTypeParameters[parameterName]);
      ghost var before := order;
      order := order + [parameterName];
      assert order[..|order| - 1] == before;
      remaining := remaining - {parameterName};
    }
    s := sb;
    RenderingStartsWithHead(d, order);
    RenderingIsHeadIffNoParameters(d, order);
  }

  /** Every rendering starts with `mimeType/mimeSubType`. */
  lemma RenderingStartsWithHead(d: MediaTypeDescriptor, order: seq<string>)
    requires IsEnumeration(order, d.mediaTypeParameters.Keys)
    ensures |Rendering(d, order)| >= |Head(d)|
    ensures Rendering(d, order)[..|Head(d)|] == Head(d)
  {
  }

  /** The rendering is exactly the head if and only if there are no parameters. */
  lemma {:induction false} RenderingIsHeadIffNoParameters(d: MediaTypeDescriptor, order: seq<string>)
    requires IsEnumeration(order, d.mediaTypeParameters.Keys)
    ensures Rendering(d, order) == Head(d) <==> d.mediaTypeParameters == map[]
  {
    if order == [] {
      assert d.mediaTypeParameters.Keys == {};
    } else {
      assert order[|order| - 1] in d.mediaTypeParameters;
      assert |ParameterText(order, d.mediaTypeParameters)| > 0;
    }
  }

  /** A sequence without repetitions holds each of its elements once. */
  lemma {:induction false} DistinctMultiplicity(order: seq<string>, k: string)
    requires forall i, j :: 0 <= i < j < |order| ==> order[i] != order[j]
    ensures multiset(order)[k] == if k in order then 1 else 0
    decreases |order|
  {
    if order != [] {
      var last := order[|order| - 1];
      var init := order[..|order| - 1];
      assert order == init + [last];
      DistinctMultiplicity(init, k);
      assert last !in init;
    }
  }

  /** The `;name=value` segments of the names of `order`, in that order. */
  function Segments(order: seq<string>, parameters: map<string, string>): (r: seq<string>)
    requires forall k :: k in order ==> k in parameters
    ensures |r| == |order|
  {
    if order == [] then []
    else
      var name := order[|order| - 1];
      Segments(order[..|order| - 1], parameters) + [Segment(name, parameters[name])]
  }

  /** Concatenates `parts` from left to right. */
  function Concat(parts: seq<string>): string
  {
    if parts == [] then [] else Concat(parts[..|parts| - 1]) + parts[|parts| - 1]
  }

  /** The parameter text is its segments laid end to end. */
  lemma {:induction false} ParameterTextIsConcat(order: seq<string>, parameters: map<string, string>)
    requires forall k :: k in order ==> k in parameters
    ensures ParameterText(order, parameters) == Concat(Segments(order, parameters))
    decreases |order|
  {
    if order != [] {
      var init := order[..|order| - 1];
      ParameterTextIsConcat(init, parameters);
      var segs := Segments(order, parameters);
      assert segs[..|segs| - 1] == Segments(init, parameters);
    }
  }

  lemma {:induction false} SegmentsAppend(u: seq<string>, v: seq<string>, parameters: map<string, string>)
    requires forall k :: k in u + v ==> k in parameters
    ensures Segments(u + v, parameters) == Segments(u, parameters) + Segments(v, parameters)
    decreases |v|
  {
    if v != [] {
      var last := v[|v| - 1];
      assert (u + v)[..|u + v| - 1] == u + v[..|v| - 1];
      SegmentsAppend(u, v[..|v| - 1], parameters);
    } else {
      assert u + v == u;
    }
  }

  /** Taking out the name at `i` takes out one copy of it. */
  lemma RemoveAt(b: seq<string>, i: nat)
    requires i < |b|
    ensures multiset(b[..i] + b[i + 1..]) == multiset(b) - multiset{b[i]}
  {
    assert b == b[..i] + [b[i]] + b[i + 1..];
  }

  /** Taking out the name at `i` takes out one copy of its segment. */
  lemma SegmentsRemoveAt(b: seq<string>, i: nat, parameters: map<string, string>)
    requires i < |b|
    requires forall k :: k in b ==> k in parameters
    ensures multiset(Segments(b, parameters))
         == multiset(Segments(b[..i] + b[i + 1..], parameters)) + multiset{Segment(b[i], parameters[b[i]])}
  {
    var left, x, right := b[..i], b[i], b[i + 1..];
    assert b == left + ([x] + right);
    SegmentsAppend(left, [x] + right, parameters);
    SegmentsAppend([x], right, parameters);
    SegmentsAppend(left, right, parameters);
    var sl, sr := Segments(left, parameters), Segments(right, parameters);
    assert Segments([x], parameters) == [Segment(x, parameters[x])];
    assert Segments(b, parameters) == sl + ([Segment(x, parameters[x])] + sr);
    assert Segments(left + right, parameters) == sl + sr;
  }

  /** Orders with the same names, counted with multiplicity, have the same segments. */
  lemma {:induction false} SegmentsOfPermutation(a: seq<string>, b: seq<string>, parameters: map<string, string>)
    requires forall k :: k in a ==> k in parameters
    requires multiset(a) == multiset(b)
    ensures forall k :: k in b ==> k in parameters
    ensures multiset(Segments(a, parameters)) == multiset(Segments(b, parameters))
    decreases |a|
  {
    assert forall k :: k in b ==> k in parameters by {
      forall k | k in b ensures k in parameters {
        assert k in multiset(b);
      }
    }
    if a != [] {
      var x := a[|a| - 1];
      var a' := a[..|a| - 1];
      assert a == a' + [x];
      assert multiset(a') == multiset(a) - multiset{x};
      assert x in multiset(b);
      var i :| 0 <= i < |b| && b[i] == x;
      RemoveAt(b, i);
      SegmentsRemoveAt(b, i, parameters);
      SegmentsOfPermutation(a', b[..i] + b[i + 1..], parameters);
    }
  }

  /**
   * Any two renderings of one descriptor list the same names, each once,
   * and consist of the same head followed by the same `;name=value`
   * segments: they differ only in the order of the segments.
   */
  lemma EnumerationsArePermutations(d: MediaTypeDescriptor, o1: seq<string>, o2: seq<string>)
    requires IsEnumeration(o1, d.mediaTypeParameters.Keys) && IsEnumeration(o2, d.mediaTypeParameters.Keys)
    ensures multiset(o1) == multiset(o2)
    ensures |o1| == |o2|
    ensures Rendering(d, o1) == Head(d) + Concat(Segments(o1, d.mediaTypeParameters))
    ensures Rendering(d, o2) == Head(d) + Concat(Segments(o2, d.mediaTypeParameters))
    ensures multiset(Segments(o1, d.mediaTypeParameters)) == multiset(Segments(o2, d.mediaTypeParameters))
  {
    forall k
      ensures multiset(o1)[k] == multiset(o2)[k]
    {
      DistinctMultiplicity(o1, k);
      DistinctMultiplicity(o2, k);
    }
    assert multiset(o1) == multiset(o2);
    assert |multiset(o1)| == |o1| && |multiset(o2)| == |o2|;
    ParameterTextIsConcat(o1, d.mediaTypeParameters);
    ParameterTextIsConcat(o2, d.mediaTypeParameters);
    SegmentsOfPermutation(o1, o2, d.mediaTypeParameters);
  }

  // ---------------------------------------------------------------------
  // Equality and hashing

  /**
   * `equals(o)`: `None` is Java's `null`; otherwise the same concrete class
   * and the same type, subtype and parameter map.
   */
  function Equals(d: MediaTypeDescriptor, o: Option<MediaTypeDescriptor>): (r: bool)
    ensures r <==> o == Some(d)
  {
    if o.None? then false
    else
      var that := o.value;
      d.concreteClass == that.concreteClass
      && d.mimeType == that.mimeType
      && d.mimeSubType == that.mimeSubType
      && d.mediaTypeParameters == that.mediaTypeParameters
  }

  /** `equals` is reflexive and symmetric. */
  lemma EqualsReflexiveSymmetric(d: MediaTypeDescriptor, e: MediaTypeDescriptor)
    ensures Equals(d, Some(d))
    ensures Equals(d, Some(e)) == Equals(e, Some(d))
    ensures !Equals(d, None)
  {
  }

  /** Parameters given in a different insertion order give an equal descriptor. */
  lemma EqualsIgnoresInsertionOrder(c: string, t: string, st: string, m: map<string, string>,
                                    n1: string, v1: string, n2: string, v2: string)
    requires n1 != n2
    ensures Equals(Create(c, t, st, m[n1 := v1][n2 := v2]), Some(Create(c, t, st, m[n2 := v2][n1 := v1])))
  {
    assert m[n1 := v1][n2 := v2] == m[n2 := v2][n1 := v1];
  }

  /** `Objects.hash(mimeType, mimeSubType, mediaTypeParameters)`. */
  type FieldsHash = (string, string, map<string, string>) -> int

  /** `hashCode()`: a hash of the three fields the descriptor compares. */
  function HashCode(d: MediaTypeDescriptor, objectsHash: FieldsHash): int
  {
    objectsHash(d.mimeType, d.mimeSubType, d.mediaTypeParameters)
  }

  /** Equal descriptors have equal hash codes. */
  lemma EqualsImpliesEqualHashCode(d: MediaTypeDescriptor, e: MediaTypeDescriptor, objectsHash: FieldsHash)
    requires Equals(d, Some(e))
    ensures HashCode(d, objectsHash) == HashCode(e, objectsHash)
  {
  }

  // ---------------------------------------------------------------------
  // The builder

  /** `Builder.Supplier`: makes the concrete descriptor from the builder's fields. */
  type Supplier<T> = (string, string, map<string, string>) -> T

  class Builder<T> {
    var mimeType: string
    var mimeSubType: string
    var mediaTypeParameters: map<string, string>
    const supplier: Supplier<T>

    constructor (supplier: Supplier<T>)
      ensures this.supplier == supplier
      ensures mimeType == "" && mimeSubType == "" && mediaTypeParameters == map[]
    {
      this.supplier := supplier;
      mediaTypeParameters := map[];
      mimeType := "";
      mimeSubType := "";
    }

    method WithMimeType(mimeType: string) returns (self: Builder<T>)
      modifies this
      ensures self == this
      ensures this.mimeType == mimeType
      ensures mimeSubType == old(mimeSubType) && mediaTypeParameters == old(mediaTypeParameters)
    {
      this.mimeType := mimeType;
      self := this;
    }

    method WithMimeSubType(mimeSubType: string) returns (self: Builder<T>)
      modifies this
      ensures self == this
      ensures this.mimeSubType == mimeSubType
      ensures mimeType == old(mimeType) && mediaTypeParameters == old(mediaTypeParameters)
    {
      this.mimeSubType := mimeSubType;
      self := this;
    }

    /** Puts one parameter; a later value for the same name replaces an earlier one. */
    method WithParameter(paramName: string, paramValue: string) returns (self: Builder<T>)
      modifies this
      ensures self == this
      ensures mediaTypeParameters == old(mediaTypeParameters)[paramName := paramValue]
      ensures paramName in mediaTypeParameters && mediaTypeParameters[paramName] == paramValue
      ensures forall n :: n != paramName ==> (n in mediaTypeParameters <==> n in old(mediaTypeParameters))
      ensures forall n :: n != paramName && n in mediaTypeParameters ==>
        mediaTypeParameters[n] == old(mediaTypeParameters)[n]
      ensures mimeType == old(mimeType) && mimeSubType == old(mimeSubType)
    {
      mediaTypeParameters := mediaTypeParameters[paramName := paramValue];
      self := this;
    }

    /** Hands the current type, subtype and parameters, unchanged, to the supplier. */
    method Build() returns (t: T)
      ensures t == supplier(mimeType, mimeSubType, mediaTypeParameters)
    {
      t := supplier(mimeType, mimeSubType, mediaTypeParameters);
    }
  }
}
