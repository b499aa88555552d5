/**
  The target platform's primitive size/alignment table.

  `DataModel<...>` is a class template whose 32 `std::size_t` parameters are a
  (size, alignment) pair for each of 16 primitive types, in a fixed order; the
  lookups `get_size<T>()` / `get_alignment<T>()` (older copy: `GetSize<T>()` /
  `GetAlignment<T>()`) return the parameter belonging to `T`. Types other than the
  16 have no lookup (the primary template is deleted, or fails a static_assert),
  so here the type set is the closed enumeration `Tag`.
*/
module DataModel {

  /** The 16 primitive field types a data model describes, in parameter order. */
  datatype Tag =
    | Char | UnsignedChar | SignedChar | WChar
    | Short | UnsignedShort
    | Int | UnsignedInt
    | Long | UnsignedLong
    | LongLong | UnsignedLongLong
    | Float | Double | LongDouble
    | Bool

  /** The 32 template parameters of `DataModel`, as declared. Sizes and
      alignments are independent: nothing relates a size to its alignment. */
  datatype DataModel = DataModel(
    charSize: nat, charAlign: nat,
    unsignedCharSize: nat, unsignedCharAlign: nat,
    signedCharSize: nat, signedCharAlign: nat,
    wCharSize: nat, wCharAlign: nat,
    shortSize: nat, shortAlign: nat,
    unsignedShortSize: nat, unsignedShortAlign: nat,
    intSize: nat, intAlign: nat,
    unsignedIntSize: nat, unsignedIntAlign: nat,
    longSize: nat, longAlign: nat,
    unsignedLongSize: nat, unsignedLongAlign: nat,
    longLongSize: nat, longLongAlign: nat,
    unsignedLongLongSize: nat, unsignedLongLongAlign: nat,
    floatSize: nat, floatAlign: nat,
    doubleSize: nat, doubleAlign: nat,
    longDoubleSize: nat, longDoubleAlign: nat,
    boolSize: nat, boolAlign: nat)

  /** Number of supported primitive types. */
  const TagCount: nat := 16

  /** The position of a tag's (size, alignment) pair in the parameter list. */
  function Position(t: Tag): (r: nat)
    ensures r < TagCount
  {
    match t
    case Char => 0
    case UnsignedChar => 1
    case SignedChar => 2
    case WChar => 3
    case Short => 4
    case UnsignedShort => 5
    case Int => 6
    case UnsignedInt => 7
    case Long => 8
    case UnsignedLong => 9
    case LongLong => 10
    case UnsignedLongLong => 11
    case Float => 12
    case Double => 13
    case LongDouble => 14
    case Bool => 15
  }

  /** The tag at a parameter-pair position; the inverse of Position. */
  function TagAt(i: nat): (t: Tag)
    requires i < TagCount
    ensures Position(t) == i
  {
    if i == 0 then Char
    else if i == 1 then UnsignedChar
    else if i == 2 then SignedChar
    else if i == 3 then WChar
    else if i == 4 then Short
    else if i == 5 then UnsignedShort
    else if i == 6 then Int
    else if i == 7 then UnsignedInt
    else if i == 8 then Long
    else if i == 9 then UnsignedLong
    else if i == 10 then LongLong
    else if i == 11 then UnsignedLongLong
    else if i == 12 then Float
    else if i == 13 then Double
    else if i == 14 then LongDouble
    else Bool
  }

  /** Every tag has its own position: the 16 lookups are 16 distinct entries. */
  lemma PositionInjective(t: Tag, u: Tag)
    requires Position(t) == Position(u)
    ensures t == u
  {
    assert TagAt(Position(t)) == t by { TagAtPosition(t); }
    assert TagAt(Position(u)) == u by { TagAtPosition(u); }
  }

  /** Position and TagAt are mutually inverse. */
  lemma TagAtPosition(t: Tag)
    ensures TagAt(Position(t)) == t
  {
    match t
    case Char =>
    case UnsignedChar =>
    case SignedChar =>
    case WChar =>
    case Short =>
    case UnsignedShort =>
    case Int =>
    case UnsignedInt =>
    case Long =>
    case UnsignedLong =>
    case LongLong =>
    case UnsignedLongLong =>
    case Float =>
    case Double =>
    case LongDouble =>
    case Bool =>
  }

  /** `get_alignment<T>()`: T's own alignment parameter. */
  function GetAlignment(m: DataModel, t: Tag): nat
  {
    match t
    case Char => m.charAlign
    case UnsignedChar => m.unsignedCharAlign
    case SignedChar => m.signedCharAlign
    case WChar => m.wCharAlign
    case Short => m.shortAlign
    case UnsignedShort => m.unsignedShortAlign
    case Int => m.intAlign
    case UnsignedInt => m.unsignedIntAlign
    case Long => m.longAlign
    case UnsignedLong => m.unsignedLongAlign
    case LongLong => m.longLongAlign
    case UnsignedLongLong => m.unsignedLongLongAlign
    case Float => m.floatAlign
    case Double => m.doubleAlign
    case LongDouble => m.longDoubleAlign
    case Bool => m.boolAlign
  }

  /** `get_size<T>()`: T's own size parameter. */
  function GetSize(m: DataModel, t: Tag): nat
  {
    match t
    case Char => m.charSize
    case UnsignedChar => m.unsignedCharSize
    case SignedChar => m.signedCharSize
    case WChar => m.wCharSize
    case Short => m.shortSize
    case UnsignedShort => m.unsignedShortSize
    case Int => m.intSize
    case UnsignedInt => m.unsignedIntSize
    case Long => m.longSize
    case UnsignedLong => m.unsignedLongSize
    case LongLong => m.longLongSize
    case UnsignedLongLong => m.unsignedLongLongSize
    case Float => m.floatSize
    case Double => m.doubleSize
    case LongDouble => m.longDoubleSize
    case Bool => m.boolSize
  }

  /** The template argument list `DataModel<p[0], ..., p[31]>`. */
  function FromParameters(p: seq<nat>): (m: DataModel)
    requires |p| == 2 * TagCount
    ensures Parameters(m) == p
  {
    DataModel(p[0], p[1], p[2], p[3], p[4], p[5], p[6], p[7],
              p[8], p[9], p[10], p[11], p[12], p[13], p[14], p[15],
              p[16], p[17], p[18], p[19], p[20], p[21], p[22], p[23],
              p[24], p[25], p[26], p[27], p[28], p[29], p[30], p[31])
  }

  /** The 32 parameters of a data model, in declaration order. */
  function Parameters(m: DataModel): (p: seq<nat>)
    ensures |p| == 2 * TagCount
  {
    [m.charSize, m.charAlign, m.unsignedCharSize, m.unsignedCharAlign,
     m.signedCharSize, m.signedCharAlign, m.wCharSize, m.wCharAlign,
     m.shortSize, m.shortAlign, m.unsignedShortSize, m.unsignedShortAlign,
     m.intSize, m.intAlign, m.unsignedIntSize, m.unsignedIntAlign,
     m.longSize, m.longAlign, m.unsignedLongSize, m.unsignedLongAlign,
     m.longLongSize, m.longLongAlign, m.unsignedLongLongSize, m.unsignedLongLongAlign,
     m.floatSize, m.floatAlign, m.doubleSize, m.doubleAlign,
     m.longDoubleSize, m.longDoubleAlign, m.boolSize, m.boolAlign]
  }

  /** Reading the parameters back gives the same model. */
  lemma ParametersRoundTrip(m: DataModel)
    ensures FromParameters(Parameters(m)) == m
  {
  }

  /** Each lookup returns T's own pair of template parameters: the size is
      parameter 2*Position(T) and the alignment parameter 2*Position(T)+1. */
  lemma LookupIsOwnParameter(p: seq<nat>, t: Tag)
    requires |p| == 2 * TagCount
    ensures GetSize(FromParameters(p), t) == p[2 * Position(t)]
    ensures GetAlignment(FromParameters(p), t) == p[2 * Position(t) + 1]
  {
    match t
    case Char =>
    case UnsignedChar =>
    case SignedChar =>
    case WChar =>
    case Short =>
    case UnsignedShort =>
    case Int =>
    case UnsignedInt =>
    case Long =>
    case UnsignedLong =>
    case LongLong =>
    case UnsignedLongLong =>
    case Float =>
    case Double =>
    case LongDouble =>
    case Bool =>
  }

  /** Parameters are independent: changing parameter k changes only the one
      lookup it belongs to, so a signed type and its unsigned partner, or a size
      and its alignment, can differ freely. */
  lemma ParametersIndependent(p: seq<nat>, k: nat, v: nat, t: Tag)
    requires |p| == 2 * TagCount && k < |p|
    ensures GetSize(FromParameters(p[k := v]), t)
         == if k == 2 * Position(t) then v else GetSize(FromParameters(p), t)
    ensures GetAlignment(FromParameters(p[k := v]), t)
         == if k == 2 * Position(t) + 1 then v else GetAlignment(FromParameters(p), t)
  {
    LookupIsOwnParameter(p, t);
    LookupIsOwnParameter(p[k := v], t);
  }
}
