/** The records the catalog holds. HorrorMovie.java is not part of this
    model: a movie is the (title, rating) pair the parser constructs. */
module Movies {

  /** A Java `double`, kept as its IEEE 754 bit pattern: the parser never
      does arithmetic on ratings, it only compares them with 0.0. */
  datatype Double = Double(bits: bv64)

  /** The literal `0.0`. */
  const PositiveZero: Double := Double(0)

  /** `d == 0.0` in Java: true for +0.0 and -0.0 and for nothing else (a NaN
      compares unequal to everything). */
  predicate IsZero(d: Double)
  {
    d.bits == 0 || d.bits == 0x8000_0000_0000_0000
  }

  /** `new HorrorMovie(title, rating)`. */
  datatype Movie = Movie(title: string, rating: Double)
}
