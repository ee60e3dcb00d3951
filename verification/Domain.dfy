/** The entities shared by the reader, the collector, the store and the exporter. */
module Domain {
  import opened Wrappers

  type u8 = x: int | 0 <= x < 0x100

  type u16 = x: int | 0 <= x < 0x1_0000

  /**
   An `f64`, kept symbolic so that no rounding is modelled. `Whole(n)` is the float
   nearest to the integer `n`, the two bit forms are floats given by their bit patterns,
   and `Affine(x, s, o)` is the float computed by `x * s + o`. Equal symbols always
   denote equal floats.
   */
  datatype Number =
    | Whole(n: int)
    | Float32(bits: nat)
    | Float64(bits: nat)
    | Affine(raw: Number, scale: Number, offset: Number)

  /** A decoded metric: the raw value, and the value after scale and offset. */
  datatype Reading = Reading(raw: Number, scaled: Number)

  function Scaled(raw: Number, scale: Number, offset: Number): Reading {
    Reading(raw, Affine(raw, scale, offset))
  }

  datatype MetricType = Gauge | Counter

  datatype RegisterType = Holding | Input | Coil | Discrete

  datatype DataType = U8 | U16 | I16 | U32 | I32 | F32 | U64 | I64 | F64 | Bool

  datatype ByteOrder = BigEndian | LittleEndian | MidBigEndian | MidLittleEndian

  datatype MetricConfig = MetricConfig(
    name: string,
    description: string,
    metricType: MetricType,
    registerType: Option<RegisterType>,
    address: Option<u16>,
    dataType: DataType,
    byteOrder: ByteOrder,
    scale: Number,
    offset: Number,
    unit: string,
    command: seq<u8>,
    responseLength: Option<u16>,
    responseOffset: u16)

  datatype MetricValue = MetricValue(
    name: string,
    value: Number,
    metricType: MetricType,
    labels: map<string, string>,
    description: string,
    unit: string,
    updatedAt: nat)

  ghost predicate DistinctNames(metrics: seq<MetricConfig>) {
    forall i, j | 0 <= i < j < |metrics| :: metrics[i].name != metrics[j].name
  }
}
