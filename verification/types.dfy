/** Value types shared by the whole model of the CHD perfect hash function. */
module Types {

  /** An unsigned byte of a key. */
  type Byte = x: int | 0 <= x < 0x100

  /** A key is an opaque byte string; the core never compares keys itself. */
  type Key = seq<Byte>

  /** The .NET `uint` used for seeds and displacement values. */
  type Uint32 = x: int | 0 <= x < 0x1_0000_0000

  /** The .NET `int` used for the `maxSeed` setting. */
  type Int32 = x: int | -0x8000_0000 <= x < 0x8000_0000

  /** The seeded 32-bit hash primitive (MurmurHash3 in the original). It is
      not modelled: every property below holds for any deterministic function
      of this shape. */
  type Hasher = (Key, Uint32) -> Uint32

  /** Seed 0 is reserved for choosing a key's bucket. */
  const InitSeed: Uint32 := 0

  /** `int.MaxValue`, the default seed ceiling. */
  const IntMaxValue: Int32 := 0x7fff_ffff

  /** The default number of keys per bucket. */
  const DefaultKeysPerBucket: nat := 4

  /** The construction settings kept by a `PerfectHashFunction` instance.
      The load factor is not kept here: the model receives the bin count it
      determines as a plain positive integer. */
  datatype Config = Config(keysPerBucket: nat, maxSeed: Int32)

  const DefaultConfig := Config(DefaultKeysPerBucket, IntMaxValue)

  datatype Option<T> = None | Some(value: T)

  datatype Result<T, E> = Success(value: T) | Failure(error: E)
}
