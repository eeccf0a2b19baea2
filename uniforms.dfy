/** The per-channel uniform values the point shader reads: the transform
    code of a scale, the attribute buffer that feeds a channel, and the
    colour filter used by the colour-counting passes. */
module Uniforms {
  import opened Wrappers
  import Slots

  /** The transform names the shader understands, in code order. */
  const TransformNames: seq<string> := ["linear", "sqrt", "log", "literal"]

  /** `u_<time><channel>_transform`: the shader code of a transform name;
      any other name is refused with the error the renderer throws. */
  function TransformCode(t: string): (r: Result<int, string>)
    ensures r.Ok? <==> t in TransformNames
    ensures r.Ok? ==> 1 <= r.value <= |TransformNames| && TransformNames[r.value - 1] == t
    ensures r.Err? ==> r.error == "Invalid transform"
  {
    if t == "linear" then Ok(1)
    else if t == "sqrt" then Ok(2)
    else if t == "log" then Ok(3)
    else if t == "literal" then Ok(4)
    else Err("Invalid transform")
  }

  /** The name a shader code stands for: the inverse of the code table at
      src/regl_rendering.js:919-926. */
  function TransformName(code: int): (r: Option<string>)
    ensures r.Some? <==> 1 <= code <= |TransformNames|
    ensures r.Some? ==> r.value == TransformNames[code - 1]
  {
    if 1 <= code <= |TransformNames| then Some(TransformNames[code - 1]) else None
  }

  /** Decoding a valid code gives back the name it was computed from. */
  lemma TransformNameOfCode(t: string)
    requires TransformCode(t).Ok?
    ensures TransformName(TransformCode(t).value) == Some(t)
  {
  }

  /** Every code the shader understands is produced by exactly one name. */
  lemma TransformCodeOfName(code: int)
    requires 1 <= code <= |TransformNames|
    ensures TransformCode(TransformName(code).value) == Ok(code)
  {
    var t := TransformNames[code - 1];
    assert t == TransformNames[0] || t == TransformNames[1] || t == TransformNames[2] || t == TransformNames[3];
  }

  /** Different valid names never share a code. */
  lemma TransformCodeInjective(s: string, t: string)
    requires TransformCode(s).Ok? && TransformCode(t).Ok?
    requires TransformCode(s) == TransformCode(t)
    ensures s == t
  {
    TransformNameOfCode(s);
    TransformNameOfCode(t);
  }

  /** `u_<time><channel>_buffer_num`: the attribute slot of a channel, or -1
      when the allocation gave that channel no slot. */
  function BufferNumUniform(aesToBufferNum: map<Slots.Key, nat>, k: Slots.Key): (r: int)
    ensures r >= -1
    ensures r == -1 <==> k !in aesToBufferNum
    ensures k in aesToBufferNum ==> r == aesToBufferNum[k]
  {
    if k in aesToBufferNum then aesToBufferNum[k] else -1
  }

  /** With the allocation bound the comment at src/regl_rendering.js:948
      states, every bound `current` channel reads a real attribute buffer:
      its buffer number is neither the -1 "no buffer" marker nor past the
      last `buffer_<n>` attribute. */
  lemma CurrentChannelsReadAnAttribute(bindings: map<Slots.Aesthetic, Slots.Channel>, p: Slots.Pair)
    requires p in Slots.OrderedPairs(bindings) && p.time == Slots.Current
    ensures 0 <= BufferNumUniform(Slots.Run(Slots.OrderedPairs(bindings), Slots.CorrectedFreshSlots).aesToBufferNum,
                                  Slots.KeyOf(p)) < Slots.AttributeBuffers
  {
    Slots.CurrentsAlwaysGetSlots(bindings, Slots.CorrectedFreshSlots, p);
    Slots.CorrectedSlotsFitAttributes(Slots.OrderedPairs(bindings));
  }

  /** The colour filter meaning "do not plot by colour". */
  const NoColorFilter: int := -2
  /** The colour filter meaning "plot every colour". */
  const AllColors: int := -1

  /** `u_only_color`: the filter the props ask for, or no colour filtering
      when they ask for none. */
  function OnlyColorUniform(onlyColor: Option<int>): (r: int)
    ensures onlyColor.Some? ==> r == onlyColor.value
    ensures onlyColor.None? ==> r == NoColorFilter && r != AllColors
  {
    if onlyColor.Some? then onlyColor.value else NoColorFilter
  }
}
