/** The part of a rendered preview (RenderedSampleTransmit) the panel reads. The record is
    produced by the font backend; the model takes it as data. */
module Samples {
  import Axis

  /** What the backend says about one OpenType feature of the face. */
  datatype FeatureData = FeatureData(name: string, isIndex: bool)

  datatype VariableData = VariableData(axes: seq<Axis.VariableAxis>, variationsPostscriptNamePrefix: string)

  /** One rendered face: the image, its style, its variable-font data, the features it offers
      and how each is applied now (`+tag`, `-tag`, `tag=N`, or absent), and the value of every
      variable axis (the result of current_axis_values, which is not part of this model). */
  datatype Sample = Sample(
    path: string,
    canvasWidth: int,
    canvasHeight: int,
    style: string,
    variableData: VariableData,
    features: map<string, FeatureData>,
    appliedFeatures: map<string, string>,
    currentAxisValues: map<string, real>)

  /** Go's zero value of the record, which indexing a map at a missing key returns. */
  const ZeroSample: Sample := Sample("", 0, 0, "", VariableData([], ""), map[], map[], map[])

  const ZeroFeature: FeatureData := FeatureData("", false)

  /** `m[k]` on a Go map of previews: the zero value when k is missing. */
  function PreviewAt(m: map<string, Sample>, k: string): (r: Sample)
    ensures k in m ==> r == m[k]
    ensures k !in m ==> r == ZeroSample
  {
    if k in m then m[k] else ZeroSample
  }

  /** `Features[tag]`: the zero value, not an index feature, when the tag is missing. */
  function FeatureAt(s: Sample, tag: string): (r: FeatureData)
    ensures tag in s.features ==> r == s.features[tag]
    ensures tag !in s.features ==> !r.isIndex
  {
    if tag in s.features then s.features[tag] else ZeroFeature
  }
}
