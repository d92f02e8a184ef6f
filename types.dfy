/** Value types shared by every ingestion path: bytes, opaque single-precision
    numbers, vertices, facets and the outcome of a load. */
module StlTypes {

  /** One byte of a file. */
  type Byte = b: int | 0 <= b < 256

  /** An unsigned 32-bit word. */
  type Word32 = w: int | 0 <= w < 0x1_0000_0000

  /** A single-precision float, kept opaque as its 32-bit IEEE-754 bit pattern:
      the model never does arithmetic on coordinates. */
  type Float32 = Word32

  /** A point or a normal: the x, y and z of a GLVertex. */
  datatype Vertex = Vertex(x: Float32, y: Float32, z: Float32)

  /** The default-constructed GLVertex, (0, 0, 0); +0.0 has the all-zero bit pattern. */
  const Origin: Vertex := Vertex(0, 0, 0)

  /** One triangle: its normal and its three corners, in file order. */
  datatype Facet = Facet(normal: Vertex, v1: Vertex, v2: Vertex, v3: Vertex)

  datatype Option<T> = None | Some(value: T)

  /** Why a load did not report success. */
  datatype LoadError =
    | CannotOpen         // the file could not be opened
    | UnterminatedSolid  // ASCII input ran out before an `endsolid` line
    | NumericParseError  // std::stof threw on a coordinate token
    | EmptyMesh          // binary count of zero, or an empty structured list
    | Truncated          // binary input shorter than its records

  /** The outcome of a load: `Success` is the source's `return true`. */
  datatype Status = Success | Failure(error: LoadError)

  /** A slice of a slice is a slice of the original sequence. */
  lemma SliceOfSlice<T>(s: seq<T>, a: nat, b: nat, c: nat, d: nat)
    requires a <= b <= |s| && c <= d <= b - a
    ensures s[a + c..a + d] == s[a..b][c..d]
  {
    var x, y := s[a + c..a + d], s[a..b][c..d];
    forall t | 0 <= t < |x| ensures x[t] == y[t] {
      assert x[t] == s[a + c + t];
      assert y[t] == s[a..b][c + t];
    }
  }

  /** An element of the middle part of a concatenation. */
  lemma InfixAt<T>(a: seq<T>, b: seq<T>, c: seq<T>, t: nat)
    requires t < |b|
    ensures |a| + t < |a + b + c| && (a + b + c)[|a| + t] == b[t]
  {
  }

  /** Concatenation of five parts, regrouped. */
  lemma Regroup<T>(a: seq<T>, x: seq<T>, y: seq<T>, z: seq<T>, c: seq<T>)
    ensures a + (x + y + z) + c == a + x + (y + z + c)
    ensures a + (x + y + z) + c == a + x + y + (z + c)
    ensures a + (x + y + z) + c == a + x + y + z + c
  {
  }

  /** Concatenation of seven parts, regrouped. */
  lemma RegroupRecord<T>(a: seq<T>, n: seq<T>, p: seq<T>, q: seq<T>, r: seq<T>, t: seq<T>, c: seq<T>)
    ensures a + (n + p + q + r + t) + c == a + n + (p + q + r + (t + c))
    ensures a + (n + p + q + r + t) + c == a + n + p + (q + r + (t + c))
    ensures a + (n + p + q + r + t) + c == a + n + p + q + (r + (t + c))
    ensures a + (n + p + q + r + t) + c == a + n + p + q + r + (t + c)
  {
  }

  /** A non-empty slice is its first element followed by the rest. */
  lemma SliceCons<T>(s: seq<T>, i: nat, j: nat)
    requires i < j <= |s|
    ensures s[i..j] == [s[i]] + s[i + 1..j]
    ensures s[i..] == [s[i]] + s[i + 1..]
  {
  }

  lemma Assoc<T>(a: seq<T>, b: seq<T>, c: seq<T>)
    ensures a + (b + c) == a + b + c
  {
  }

  /** Concatenation of five parts, flattened. */
  lemma AppendRegroup<T>(h: seq<T>, w: seq<T>, x: seq<T>, y: seq<T>, z: seq<T>)
    ensures h + w + (x + y + z) == h + w + x + y + z
  {
  }
}
