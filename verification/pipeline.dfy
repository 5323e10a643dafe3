/** The pure rules of the Vulkan pipeline objects (vk_pipeline.cpp): the
    vertex-attribute stride table, the descriptor bindings and uniform-buffer
    indices of a parameter layout, the vertex-input and cull-mode mapping of a
    render pipeline, and the per-frame copy-and-write logic of a pipeline
    parameter's uniform buffers.

    Vulkan objects are left out; a uniform buffer is its byte contents, and the
    frame counters the renderer keeps are passed in as a `FrameContext`. */
module Pipeline {

  /** `static_cast<std::uint32_t>` keeps the low 32 bits. */
  const U32_MODULUS: nat := 0x1_0000_0000

  /** `std::size_t` is 64 bits wide; its arithmetic wraps modulo this. */
  const SIZE_MODULUS: nat := 0x1_0000_0000_0000_0000

  type Byte = b: int | 0 <= b < 256

  /** A value, or the message of the exception the source throws instead. */
  datatype Result<T> = Success(value: T) | Failure(error: string)

  // ---------------------------------------------------------------------------
  // Vertex attribute strides
  // ---------------------------------------------------------------------------

  /** `rhi_resource_format`: the formats the stride table lists by name, and
      every other format by its code. */
  datatype Format =
    | R8Unorm | R8Snorm | R8Uint | R8Sint
    | R8G8Unorm | R8G8Snorm | R8G8Uint | R8G8Sint
    | R8G8B8Unorm | R8G8B8Snorm | R8G8B8Uint | R8G8B8Sint
    | R8G8B8A8Unorm | R8G8B8A8Snorm | R8G8B8A8Uint | R8G8B8A8Sint
    | R32Uint | R32Sint | R32Float
    | R32G32Uint | R32G32Sint | R32G32Float
    | R32G32B32Uint | R32G32B32Sint | R32G32B32Float
    | R32G32B32A32Uint | R32G32B32A32Sint | R32G32B32A32Float
    | OtherFormat(code: nat)

  /** The number of channels a format's name lists (R, RG, RGB or RGBA); zero
      for the formats outside the table. */
  function ChannelCount(f: Format): nat
  {
    match f
    case R8Unorm | R8Snorm | R8Uint | R8Sint | R32Uint | R32Sint | R32Float => 1
    case R8G8Unorm | R8G8Snorm | R8G8Uint | R8G8Sint | R32G32Uint | R32G32Sint | R32G32Float => 2
    case R8G8B8Unorm | R8G8B8Snorm | R8G8B8Uint | R8G8B8Sint
      | R32G32B32Uint | R32G32B32Sint | R32G32B32Float => 3
    case R8G8B8A8Unorm | R8G8B8A8Snorm | R8G8B8A8Uint | R8G8B8A8Sint
      | R32G32B32A32Uint | R32G32B32A32Sint | R32G32B32A32Float => 4
    case OtherFormat(_) => 0
  }

  /** The width in bits of one channel, as the name gives it; zero for the
      formats outside the table. */
  function ChannelBits(f: Format): nat
  {
    match f
    case R8Unorm | R8Snorm | R8Uint | R8Sint
      | R8G8Unorm | R8G8Snorm | R8G8Uint | R8G8Sint
      | R8G8B8Unorm | R8G8B8Snorm | R8G8B8Uint | R8G8B8Sint
      | R8G8B8A8Unorm | R8G8B8A8Snorm | R8G8B8A8Uint | R8G8B8A8Sint => 8
    case OtherFormat(_) => 0
    case _ => 32
  }

  /** `get_vertex_attribute_stride`: the byte size of one vertex attribute of
      the given format, and 0 for a format the table does not list. */
  function VertexStride(f: Format): (r: nat)
    ensures r == ChannelCount(f) * (ChannelBits(f) / 8)
    ensures r == 0 <==> f.OtherFormat?
    ensures ChannelBits(f) == 8 ==> r == ChannelCount(f)
    ensures ChannelBits(f) == 32 ==> r == 4 * ChannelCount(f)
  {
    match f
    case R8Unorm | R8Snorm | R8Uint | R8Sint => 1
    case R8G8Unorm | R8G8Snorm | R8G8Uint | R8G8Sint => 2
    case R8G8B8Unorm | R8G8B8Snorm | R8G8B8Uint | R8G8B8Sint => 3
    case R8G8B8A8Unorm | R8G8B8A8Snorm | R8G8B8A8Uint | R8G8B8A8Sint => 4
    case R32Uint | R32Sint | R32Float => 4
    case R32G32Uint | R32G32Sint | R32G32Float => 8
    case R32G32B32Uint | R32G32B32Sint | R32G32B32Float => 12
    case R32G32B32A32Uint | R32G32B32A32Sint | R32G32B32A32Float => 16
    case OtherFormat(_) => 0
  }

  // ---------------------------------------------------------------------------
  // Parameter layout: descriptor bindings and uniform-buffer indices
  // ---------------------------------------------------------------------------

  /** `rhi_pipeline_parameter_type`: uniform buffers, and the other kinds by
      their code. */
  datatype ParameterType = UniformBufferParameter | OtherParameter(code: nat)

  datatype ParameterDesc = ParameterDesc(ty: ParameterType, size: nat)

  /** `VkDescriptorType`. `VK_DESCRIPTOR_TYPE_SAMPLER` is value 0, so it is
      what a value-initialised field holds. */
  datatype DescriptorType = SamplerDescriptor | UniformBufferDescriptor

  /** `VkDescriptorSetLayoutBinding` without the immutable samplers (always
      null); `vertexStage` is whether the stage flags hold the vertex bit. */
  datatype DescriptorBinding = DescriptorBinding(
    binding: nat,
    descriptorType: DescriptorType,
    descriptorCount: nat,
    vertexStage: bool)

  /** The layout's per-parameter record: descriptor type, the index of the
      parameter's uniform buffer, and the buffer's size. */
  datatype ParameterInfo = ParameterInfo(descriptorType: DescriptorType, index: nat, size: nat)

  /** A value-initialised parameter info, which non-uniform parameters keep. */
  const UNSET_INFO: ParameterInfo := ParameterInfo(SamplerDescriptor, 0, 0)

  predicate IsUniform(p: ParameterDesc)
  {
    p.ty.UniformBufferParameter?
  }

  /** The number of uniform-buffer parameters among the first `i`. */
  function UniformsBefore(params: seq<ParameterDesc>, i: nat): nat
    requires i <= |params|
  {
    if i == 0 then 0
    else UniformsBefore(params, i - 1) + (if IsUniform(params[i - 1]) then 1 else 0)
  }

  /** The `vk_pipeline_parameter_layout` constructor's loop: one binding per
      parameter, numbered by its position; uniform-buffer parameters get a
      one-descriptor vertex-stage binding and the next uniform-buffer index,
      every other parameter keeps a zeroed binding and info. */
  method BuildParameterLayout(params: seq<ParameterDesc>)
    returns (bindings: seq<DescriptorBinding>, infos: seq<ParameterInfo>)
    ensures |bindings| == |params| && |infos| == |params|
    ensures forall i | 0 <= i < |params| :: bindings[i].binding == i % U32_MODULUS
    ensures forall i | 0 <= i < |params| && IsUniform(params[i]) ::
      && bindings[i] == DescriptorBinding(i % U32_MODULUS, UniformBufferDescriptor, 1, true)
      && infos[i] == ParameterInfo(UniformBufferDescriptor, UniformsBefore(params, i), params[i].size)
    ensures forall i | 0 <= i < |params| && !IsUniform(params[i]) ::
      && bindings[i] == DescriptorBinding(i % U32_MODULUS, SamplerDescriptor, 0, false)
      && infos[i] == UNSET_INFO
  {
    bindings := [];
    infos := [];
    var uniformCount := 0;
    var i := 0;
    while i < |params|
      invariant 0 <= i <= |params|
      invariant |bindings| == i && |infos| == i
      invariant uniformCount == UniformsBefore(params, i)
      invariant forall k | 0 <= k < i :: bindings[k].binding == k % U32_MODULUS
      invariant forall k | 0 <= k < i && IsUniform(params[k]) ::
        && bindings[k] == DescriptorBinding(k % U32_MODULUS, UniformBufferDescriptor, 1, true)
        && infos[k] == ParameterInfo(UniformBufferDescriptor, UniformsBefore(params, k), params[k].size)
      invariant forall k | 0 <= k < i && !IsUniform(params[k]) ::
        && bindings[k] == DescriptorBinding(k % U32_MODULUS, SamplerDescriptor, 0, false)
        && infos[k] == UNSET_INFO
    {
      var binding := DescriptorBinding(i % U32_MODULUS, SamplerDescriptor, 0, false);
      var info := UNSET_INFO;
      if IsUniform(params[i]) {
        binding := binding.(descriptorType := UniformBufferDescriptor, descriptorCount := 1, vertexStage := true);
        info := ParameterInfo(UniformBufferDescriptor, uniformCount, params[i].size);
        uniformCount := uniformCount + 1;
      }
      bindings := bindings + [binding];
      infos := infos + [info];
      i := i + 1;
    }
  }

  /** Counting uniform buffers never goes down along the parameter list, and
      passing a uniform-buffer parameter raises the count. */
  lemma {:induction false} UniformsBeforeGrows(params: seq<ParameterDesc>, i: nat, j: nat)
    requires i <= j <= |params|
    ensures UniformsBefore(params, i) <= UniformsBefore(params, j)
    ensures i < j && IsUniform(params[i]) ==> UniformsBefore(params, i) < UniformsBefore(params, j)
    decreases j - i
  {
    if i < j {
      UniformsBeforeGrows(params, i + 1, j);
    }
  }

  /** Every uniform-buffer index below the total belongs to some uniform-buffer
      parameter among the first `n`. */
  lemma {:induction false} UniformsBeforeReached(params: seq<ParameterDesc>, n: nat, k: nat)
    requires n <= |params| && k < UniformsBefore(params, n)
    ensures exists i | 0 <= i < n :: IsUniform(params[i]) && UniformsBefore(params, i) == k
  {
    if k < UniformsBefore(params, n - 1) {
      UniformsBeforeReached(params, n - 1, k);
    } else {
      assert IsUniform(params[n - 1]) && UniformsBefore(params, n - 1) == k;
    }
  }

  /** Some uniform-buffer parameter gets index `k`. */
  predicate IndexUsed(params: seq<ParameterDesc>, k: nat)
  {
    exists i | 0 <= i < |params| :: IsUniform(params[i]) && UniformsBefore(params, i) == k
  }

  /** The uniform-buffer indices the layout assigns are 0, 1, 2, ... in
      declaration order: strictly increasing, below the number of uniform
      buffers, and each index up to that number is used. */
  lemma UniformIndicesDense(params: seq<ParameterDesc>)
    ensures forall i, j | 0 <= i < j < |params| && IsUniform(params[i]) && IsUniform(params[j]) ::
      UniformsBefore(params, i) < UniformsBefore(params, j)
    ensures forall i | 0 <= i < |params| && IsUniform(params[i]) ::
      UniformsBefore(params, i) < UniformsBefore(params, |params|)
    ensures forall k | 0 <= k < UniformsBefore(params, |params|) :: IndexUsed(params, k)
  {
    forall i, j | 0 <= i < j < |params| && IsUniform(params[i]) && IsUniform(params[j])
      ensures UniformsBefore(params, i) < UniformsBefore(params, j)
    {
      UniformsBeforeGrows(params, i, j);
    }
    forall i | 0 <= i < |params| && IsUniform(params[i])
      ensures UniformsBefore(params, i) < UniformsBefore(params, |params|)
    {
      UniformsBeforeGrows(params, i, |params|);
    }
    forall k | 0 <= k < UniformsBefore(params, |params|)
      ensures IndexUsed(params, k)
    {
      UniformsBeforeReached(params, |params|, k);
    }
  }

  /** When every parameter is a uniform buffer, a parameter's buffer index is
      its position: the buffers the parameter object creates in declaration
      order are the ones `index` names. */
  lemma {:induction false} UniformIndexIsPosition(params: seq<ParameterDesc>, i: nat)
    requires forall k | 0 <= k < |params| :: IsUniform(params[k])
    requires i <= |params|
    ensures UniformsBefore(params, i) == i
  {
    if i > 0 {
      UniformIndexIsPosition(params, i - 1);
    }
  }

  // ---------------------------------------------------------------------------
  // Render pipeline: vertex input and cull mode
  // ---------------------------------------------------------------------------

  /** `VkVertexInputBindingDescription`; the input rate is always per vertex. */
  datatype VertexBinding = VertexBinding(binding: nat, stride: nat)

  /** `VkVertexInputAttributeDescription` at offset 0; the format is kept as
      the engine's format. */
  datatype VertexAttribute = VertexAttribute(binding: nat, location: nat, format: Format)

  /** The vertex-input loop of the `vk_render_pipeline` constructor: each
      attribute gets its own binding and location, numbered by position, and
      the binding's stride is the attribute's size. */
  method BuildVertexInput(formats: seq<Format>)
    returns (bindings: seq<VertexBinding>, attributes: seq<VertexAttribute>)
    ensures |bindings| == |formats| && |attributes| == |formats|
    ensures forall i | 0 <= i < |formats| ::
      && bindings[i].binding == i % U32_MODULUS
      && bindings[i].stride == ChannelCount(formats[i]) * (ChannelBits(formats[i]) / 8)
      && attributes[i] == VertexAttribute(bindings[i].binding, i % U32_MODULUS, formats[i])
    ensures |formats| <= U32_MODULUS ==>
      forall i, j | 0 <= i < j < |formats| :: bindings[i].binding != bindings[j].binding
  {
    bindings := [];
    attributes := [];
    var i := 0;
    while i < |formats|
      invariant 0 <= i <= |formats|
      invariant |bindings| == i && |attributes| == i
      invariant forall k | 0 <= k < i ::
        && bindings[k].binding == k % U32_MODULUS
        && bindings[k].stride == ChannelCount(formats[k]) * (ChannelBits(formats[k]) / 8)
        && attributes[k] == VertexAttribute(bindings[k].binding, k % U32_MODULUS, formats[k])
    {
      var binding := VertexBinding(i % U32_MODULUS, VertexStride(formats[i]));
      bindings := bindings + [binding];
      attributes := attributes + [VertexAttribute(binding.binding, i % U32_MODULUS, formats[i])];
      i := i + 1;
    }
  }

  /** `rhi_cull_mode`: the three modes the mapping knows, and any other value. */
  datatype CullMode = CullNone | CullFront | CullBack | OtherCullMode(code: nat)

  /** `VkCullModeFlagBits` values. */
  const VK_CULL_MODE_NONE: nat := 0
  const VK_CULL_MODE_FRONT_BIT: nat := 1
  const VK_CULL_MODE_BACK_BIT: nat := 2

  /** The engine cull mode a Vulkan cull-mode value stands for; the
      front-and-back value (3) has none. */
  function CullModeOfVulkan(v: nat): Result<CullMode>
  {
    if v == VK_CULL_MODE_NONE then Success(CullNone)
    else if v == VK_CULL_MODE_FRONT_BIT then Success(CullFront)
    else if v == VK_CULL_MODE_BACK_BIT then Success(CullBack)
    else Failure("no engine cull mode")
  }

  /** The cull-mode switch of the `vk_render_pipeline` constructor: each known
      mode maps to the Vulkan value that means the same, and any other value
      throws. */
  function MapCullMode(m: CullMode): (r: Result<nat>)
    ensures r.Failure? <==> m.OtherCullMode?
    ensures r.Success? ==> CullModeOfVulkan(r.value) == Success(m)
    ensures r.Failure? ==> r.error == "Invalid cull mode."
  {
    match m
    case CullNone => Success(VK_CULL_MODE_NONE)
    case CullFront => Success(VK_CULL_MODE_FRONT_BIT)
    case CullBack => Success(VK_CULL_MODE_BACK_BIT)
    case OtherCullMode(_) => Failure("Invalid cull mode.")
  }

  /** Every Vulkan value that names an engine mode is what that mode maps to. */
  lemma CullModeCoversVulkan(v: nat)
    ensures CullModeOfVulkan(v).Success? <==> v <= 2
    ensures CullModeOfVulkan(v).Success? ==> MapCullMode(CullModeOfVulkan(v).value) == Success(v)
  {
  }

  // ---------------------------------------------------------------------------
  // Pipeline parameters: the frame ring of uniform-buffer copies
  // ---------------------------------------------------------------------------

  /** What the renderer reports about the frame being recorded: the frame
      number, the number of frame resources in the ring and the slot of the
      current frame. The renderer keeps these; they are inputs here. */
  datatype FrameContext = FrameContext(frame: nat, resourceCount: nat, resourceIndex: nat)

  predicate ValidFrame(f: FrameContext)
  {
    && f.frame < SIZE_MODULUS
    && 0 < f.resourceCount < SIZE_MODULUS
    && f.resourceIndex < f.resourceCount
  }

  /** `a + b` on `std::size_t`. */
  function SizeAdd(a: nat, b: nat): (r: nat)
    ensures r < SIZE_MODULUS
    ensures a + b < SIZE_MODULUS ==> r == a + b
  {
    (a + b) % SIZE_MODULUS
  }

  /** The slot before `current` in the ring of `count` slots, computed as
      `(current + count - 1) % count` on `std::size_t`. */
  function PreviousIndex(current: nat, count: nat): (r: nat)
    requires 0 < count < SIZE_MODULUS && current < count
    ensures r < count
    ensures current + count - 1 < SIZE_MODULUS ==>
      r == (if current == 0 then count - 1 else current - 1)
  {
    var sum := SizeAdd(current, count - 1);
    if current + count - 1 < SIZE_MODULUS then
      if current == 0 then
        ModWithinLap(count - 1, count);
        sum % count
      else
        ModWithinLap(current - 1, count);
        sum % count
    else sum % count
  }

  /** Reducing modulo `n` leaves a value below `n` as it is, and removes one
      added lap. */
  lemma ModWithinLap(x: nat, n: nat)
    requires x < n
    ensures x % n == x && (x + n) % n == x
  {
  }

  /** Without wrap-around the previous slot is the one `current` follows:
      stepping forward from it lands on `current`. */
  lemma PreviousIndexPrecedes(current: nat, count: nat)
    requires 0 < count < SIZE_MODULUS && current < count
    requires current + count - 1 < SIZE_MODULUS
    ensures (PreviousIndex(current, count) + 1) % count == current
  {
  }

  /** Whether something last changed at frame `updated` may still differ
      between ring slots at frame `f.frame`: the source skips it when
      `updated + count < frame`. */
  predicate Recent(updated: nat, f: FrameContext)
  {
    !(SizeAdd(updated, f.resourceCount) < f.frame)
  }

  /** A `vk_pipeline_parameter`. Every parameter of the layout is a uniform
      buffer; `buffers[i][k]` is slot k of parameter i's buffer, the
      `sizes[i]` bytes at byte address `sizes[i] * k` (see `SlotAddress`). */
  datatype Parameter = Parameter(
    sizes: seq<nat>,
    lastUpdateFrame: nat,
    lastSyncFrame: nat,
    updateFrames: seq<nat>,
    buffers: seq<seq<seq<Byte>>>)

  predicate ValidParameter(p: Parameter, count: nat)
  {
    && |p.updateFrames| == |p.sizes|
    && |p.buffers| == |p.sizes|
    && (forall i | 0 <= i < |p.sizes| :: |p.buffers[i]| == count)
    && (forall i, k | 0 <= i < |p.sizes| && 0 <= k < |p.buffers[i]| :: |p.buffers[i][k]| == p.sizes[i])
    && (forall i | 0 <= i < |p.sizes| :: p.updateFrames[i] < SIZE_MODULUS)
    && p.lastUpdateFrame < SIZE_MODULUS
    && p.lastSyncFrame < SIZE_MODULUS
  }

  /** `m_last_sync_frame(-1)`: minus one converted to `std::size_t`. */
  const NEVER_SYNCED: nat := SIZE_MODULUS - 1

  /** The `vk_pipeline_parameter` constructor: one buffer of `count` slots of
      `size` bytes per parameter, all update frames 0 and no frame synced yet;
      a parameter that is not a uniform buffer throws. */
  function CreateParameter(infos: seq<ParameterInfo>, count: nat): (r: Result<Parameter>)
    ensures r.Success? <==> forall i | 0 <= i < |infos| :: infos[i].descriptorType == UniformBufferDescriptor
    ensures r.Failure? ==> r.error == "Invalid parameter type."
    ensures r.Success? ==>
      && ValidParameter(r.value, count)
      && |r.value.sizes| == |infos|
      && (forall i | 0 <= i < |infos| :: r.value.sizes[i] == infos[i].size && r.value.updateFrames[i] == 0)
      && r.value.lastUpdateFrame == 0
      && r.value.lastSyncFrame == NEVER_SYNCED
  {
    if exists i | 0 <= i < |infos| :: infos[i].descriptorType != UniformBufferDescriptor then
      Failure("Invalid parameter type.")
    else
      Success(Parameter(
        seq(|infos|, i requires 0 <= i < |infos| => infos[i].size),
        0,
        NEVER_SYNCED,
        seq(|infos|, _ => 0),
        seq(|infos|, i requires 0 <= i < |infos| =>
          seq(count, _ => seq(infos[i].size, _ => 0)))))
  }

  /** The byte address of byte `offset` of slot `k` in a buffer of slots of
      `size` bytes: `offset + size * k`, as `set` computes it. */
  function SlotAddress(size: nat, k: nat, offset: nat): nat
  {
    offset + size * k
  }

  /** The slots of a buffer of `count` slots of `size` bytes tile it: every
      byte of slot k lies inside the buffer and inside slot k's own range, so
      bytes of distinct slots never share an address. */
  lemma {:induction false} SlotAddressInSlot(size: nat, count: nat, k: nat, offset: nat)
    requires k < count && offset < size
    ensures size * k <= SlotAddress(size, k, offset) < size * (k + 1)
    ensures SlotAddress(size, k, offset) < size * count
  {
    assert size * (k + 1) == size * k + size;
    MulMonotone(size, k + 1, count);
  }

  /** Multiplying by a natural number keeps order. */
  lemma {:induction false} MulMonotone(size: nat, a: nat, b: nat)
    requires a <= b
    ensures size * a <= size * b
    decreases b - a
  {
    if a < b {
      MulMonotone(size, a + 1, b);
      assert size * (a + 1) == size * a + size;
    }
  }

  /** Distinct (slot, offset) pairs have distinct byte addresses. */
  lemma SlotAddressInjective(size: nat, count: nat, k1: nat, o1: nat, k2: nat, o2: nat)
    requires k1 < count && o1 < size && k2 < count && o2 < size
    requires SlotAddress(size, k1, o1) == SlotAddress(size, k2, o2)
    ensures k1 == k2 && o1 == o2
  {
    SlotAddressInSlot(size, count, k1, o1);
    SlotAddressInSlot(size, count, k2, o2);
    if k1 < k2 {
      MulMonotone(size, k1 + 1, k2);
    } else if k2 < k1 {
      MulMonotone(size, k2 + 1, k1);
    }
  }

  /** `memcpy(slot + at, data, |data|)`. */
  function Splice(slot: seq<Byte>, at: nat, data: seq<Byte>): (r: seq<Byte>)
    requires at + |data| <= |slot|
    ensures |r| == |slot|
    ensures forall j | 0 <= j < |data| :: r[at + j] == data[j]
    ensures forall j | 0 <= j < |slot| && !(at <= j < at + |data|) :: r[j] == slot[j]
  {
    slot[..at] + data + slot[at + |data|..]
  }

  /** Whether sync's loop copies parameter `i`: it was set within the last
      `count` frames. */
  predicate Copies(p: Parameter, f: FrameContext, i: nat)
    requires i < |p.updateFrames|
  {
    Recent(p.updateFrames[i], f)
  }

  /** The loop of `sync`: for every recently set parameter the previous slot
      is copied over the current slot; everything else stays as it is. */
  function CopyRecent(p: Parameter, f: FrameContext): (r: seq<seq<seq<Byte>>>)
    requires ValidFrame(f) && ValidParameter(p, f.resourceCount)
    ensures |r| == |p.buffers|
    ensures forall i | 0 <= i < |r| :: |r[i]| == |p.buffers[i]|
    ensures forall i | 0 <= i < |r| && !Copies(p, f, i) :: r[i] == p.buffers[i]
    ensures forall i | 0 <= i < |r| && Copies(p, f, i) ::
      r[i][f.resourceIndex] == p.buffers[i][PreviousIndex(f.resourceIndex, f.resourceCount)]
    ensures forall i, k | 0 <= i < |r| && 0 <= k < |r[i]| && k != f.resourceIndex ::
      r[i][k] == p.buffers[i][k]
  {
    var previous := PreviousIndex(f.resourceIndex, f.resourceCount);
    seq(|p.buffers|, i requires 0 <= i < |p.buffers| =>
      if Copies(p, f, i) then p.buffers[i][f.resourceIndex := p.buffers[i][previous]]
      else p.buffers[i])
  }

  /** `sync` as the source writes it: nothing happens when it already ran in
      this frame or when no parameter was set in the last `count` frames, and
      the latter case does not record the frame as synced. Otherwise it
      records the frame and runs the copy loop. */
  function SyncAsWritten(p: Parameter, f: FrameContext): (r: Parameter)
    requires ValidFrame(f) && ValidParameter(p, f.resourceCount)
    ensures ValidParameter(r, f.resourceCount)
    ensures p.lastSyncFrame == f.frame || !Recent(p.lastUpdateFrame, f) ==> r == p
    ensures p.lastSyncFrame != f.frame && Recent(p.lastUpdateFrame, f) ==>
      r == p.(lastSyncFrame := f.frame, buffers := CopyRecent(p, f))
  {
    if p.lastSyncFrame == f.frame || !Recent(p.lastUpdateFrame, f) then p
    else p.(lastSyncFrame := f.frame, buffers := CopyRecent(p, f))
  }

  /** `sync` as evidently intended: the first call in a frame records the
      frame as synced whether or not there is anything to copy, so it runs at
      most once per frame. */
  function Sync(p: Parameter, f: FrameContext): (r: Parameter)
    requires ValidFrame(f) && ValidParameter(p, f.resourceCount)
    ensures ValidParameter(r, f.resourceCount)
    ensures r.lastSyncFrame == f.frame
    ensures r.sizes == p.sizes && r.lastUpdateFrame == p.lastUpdateFrame && r.updateFrames == p.updateFrames
    ensures p.lastSyncFrame == f.frame || !Recent(p.lastUpdateFrame, f) ==> r.buffers == p.buffers
    ensures p.lastSyncFrame != f.frame && Recent(p.lastUpdateFrame, f) ==> r.buffers == CopyRecent(p, f)
  {
    if p.lastSyncFrame == f.frame then p
    else if !Recent(p.lastUpdateFrame, f) then p.(lastSyncFrame := f.frame)
    else p.(lastSyncFrame := f.frame, buffers := CopyRecent(p, f))
  }

  /** The precondition `set` relies on: the index names a parameter and the
      bytes fit in its slot. */
  predicate CanSet(p: Parameter, index: nat, data: seq<Byte>, offset: nat)
  {
    index < |p.sizes| && offset + |data| <= p.sizes[index]
  }

  /** Writes `data` at `offset` into the current slot of parameter `index` of
      an already synced parameter and stamps the frame as its last update. */
  function Write(s: Parameter, index: nat, data: seq<Byte>, offset: nat, f: FrameContext): (r: Parameter)
    requires ValidFrame(f) && ValidParameter(s, f.resourceCount) && CanSet(s, index, data, offset)
    ensures ValidParameter(r, f.resourceCount)
    ensures r.sizes == s.sizes && r.lastSyncFrame == s.lastSyncFrame
    ensures r.lastUpdateFrame == f.frame && r.updateFrames == s.updateFrames[index := f.frame]
    ensures forall j | 0 <= j < |data| :: r.buffers[index][f.resourceIndex][offset + j] == data[j]
    ensures forall j | 0 <= j < s.sizes[index] && !(offset <= j < offset + |data|) ::
      r.buffers[index][f.resourceIndex][j] == s.buffers[index][f.resourceIndex][j]
    ensures forall i, k | 0 <= i < |r.buffers| && 0 <= k < |r.buffers[i]| && (i != index || k != f.resourceIndex) ::
      r.buffers[i][k] == s.buffers[i][k]
  {
    var slots := s.buffers[index];
    s.(buffers := s.buffers[index := slots[f.resourceIndex := Splice(slots[f.resourceIndex], offset, data)]],
       lastUpdateFrame := f.frame,
       updateFrames := s.updateFrames[index := f.frame])
  }

  /** `set` as the source writes it: sync, then write. */
  function SetAsWritten(p: Parameter, index: nat, data: seq<Byte>, offset: nat, f: FrameContext): (r: Parameter)
    requires ValidFrame(f) && ValidParameter(p, f.resourceCount) && CanSet(p, index, data, offset)
    ensures ValidParameter(r, f.resourceCount) && r.sizes == p.sizes
    ensures r.lastUpdateFrame == f.frame && r.updateFrames == p.updateFrames[index := f.frame]
    ensures forall j | 0 <= j < |data| :: r.buffers[index][f.resourceIndex][offset + j] == data[j]
    ensures r.lastSyncFrame == SyncAsWritten(p, f).lastSyncFrame
    ensures forall j | 0 <= j < p.sizes[index] && !(offset <= j < offset + |data|) ::
      r.buffers[index][f.resourceIndex][j] == SyncAsWritten(p, f).buffers[index][f.resourceIndex][j]
    ensures forall i, k | 0 <= i < |r.buffers| && 0 <= k < |r.buffers[i]| && (i != index || k != f.resourceIndex) ::
      r.buffers[i][k] == SyncAsWritten(p, f).buffers[i][k]
  {
    Write(SyncAsWritten(p, f), index, data, offset, f)
  }

  /** `set` with the intended `sync`. */
  function Set(p: Parameter, index: nat, data: seq<Byte>, offset: nat, f: FrameContext): (r: Parameter)
    requires ValidFrame(f) && ValidParameter(p, f.resourceCount) && CanSet(p, index, data, offset)
    ensures ValidParameter(r, f.resourceCount) && r.sizes == p.sizes
    ensures r.lastSyncFrame == f.frame
    ensures r.lastUpdateFrame == f.frame && r.updateFrames == p.updateFrames[index := f.frame]
    ensures forall j | 0 <= j < |data| :: r.buffers[index][f.resourceIndex][offset + j] == data[j]
    ensures forall j | 0 <= j < p.sizes[index] && !(offset <= j < offset + |data|) ::
      r.buffers[index][f.resourceIndex][j] == Sync(p, f).buffers[index][f.resourceIndex][j]
    ensures forall i, k | 0 <= i < |r.buffers| && 0 <= k < |r.buffers[i]| && (i != index || k != f.resourceIndex) ::
      r.buffers[i][k] == Sync(p, f).buffers[i][k]
    ensures p.lastSyncFrame == f.frame ==>
      forall i, k | 0 <= i < |r.buffers| && 0 <= k < |r.buffers[i]| && (i != index || k != f.resourceIndex) ::
        r.buffers[i][k] == p.buffers[i][k]
  {
    Write(Sync(p, f), index, data, offset, f)
  }

  /** Within one frame the intended `sync` does its work once: syncing a
      synced parameter, or one just set, changes nothing. */
  lemma SyncOncePerFrame(p: Parameter, index: nat, data: seq<Byte>, offset: nat, f: FrameContext)
    requires ValidFrame(f) && ValidParameter(p, f.resourceCount) && CanSet(p, index, data, offset)
    ensures Sync(Sync(p, f), f) == Sync(p, f)
    ensures Sync(Set(p, index, data, offset, f), f) == Set(p, index, data, offset, f)
  {
  }

  /** With the intended `sync`, a second `set` in the same frame keeps the
      bytes the first one wrote, except those it overwrites itself. */
  lemma SecondSetKeepsFirstWrite(
    p: Parameter, f: FrameContext,
    i: nat, first: seq<Byte>, firstOffset: nat,
    k: nat, second: seq<Byte>, secondOffset: nat)
    requires ValidFrame(f) && ValidParameter(p, f.resourceCount) && CanSet(p, i, first, firstOffset)
    requires CanSet(p, k, second, secondOffset)
    requires i != k || firstOffset + |first| <= secondOffset || secondOffset + |second| <= firstOffset
    ensures var p1 := Set(p, i, first, firstOffset, f);
      var p2 := Set(p1, k, second, secondOffset, f);
      forall j | 0 <= j < |first| :: p2.buffers[i][f.resourceIndex][firstOffset + j] == first[j]
  {
    var p1 := Set(p, i, first, firstOffset, f);
    assert Sync(p1, f) == p1;
    var p2 := Set(p1, k, second, secondOffset, f);
    assert p2 == Write(p1, k, second, secondOffset, f);
  }

  /** The parameter the counterexample starts from: two one-byte uniform
      buffers in a ring of two frame resources, freshly created. */
  const STALE_EXAMPLE: Parameter := Parameter([1, 1], 0, NEVER_SYNCED, [0, 0], [[[0], [0]], [[0], [0]]])

  /** Frame 10, slot 0: more than two frames after the last update. */
  const STALE_FRAME: FrameContext := FrameContext(10, 2, 0)

  /** With `sync` as written, setting two parameters in one frame after the
      object sat unused for more than `count` frames loses the first write:
      the first `set` skips `sync` without recording the frame, so the second
      `set` runs it and copies the stale previous slot over the fresh byte. */
  lemma StaleSetLosesWrite()
    ensures CanSet(STALE_EXAMPLE, 0, [7], 0) && CanSet(STALE_EXAMPLE, 1, [9], 0)
    ensures ValidFrame(STALE_FRAME) && ValidParameter(STALE_EXAMPLE, STALE_FRAME.resourceCount)
    ensures var p1 := SetAsWritten(STALE_EXAMPLE, 0, [7], 0, STALE_FRAME);
      && p1.buffers[0][0][0] == 7
      && SetAsWritten(p1, 1, [9], 0, STALE_FRAME).buffers[0][0][0] == 0
  {
    var f := STALE_FRAME;
    var p := STALE_EXAMPLE;
    assert ValidParameter(p, 2);
    assert !Recent(p.lastUpdateFrame, f);
    var p1 := SetAsWritten(p, 0, [7], 0, f);
    assert p1.lastSyncFrame == NEVER_SYNCED && p1.lastUpdateFrame == 10 && p1.updateFrames[0] == 10;
    assert PreviousIndex(0, 2) == 1;
    var s := SyncAsWritten(p1, f);
    assert Copies(p1, f, 0);
    assert s.buffers[0][0] == p1.buffers[0][1] == p.buffers[0][1];
    assert SetAsWritten(p1, 1, [9], 0, f).buffers[0] == s.buffers[0];
  }
}
