/** The Ruby values the library handles: live attribute values, the keys of
    an options Hash, the `===` matchers a caller puts in it, and the
    exceptions the library raises. */
module Values {
  import opened Wrappers
  import Text

  /** A connection object, told apart by its identity only. */
  type Conn = nat

  /** A live attribute value: job and tube stats are integers or strings,
      a job's `connection` is an object, and a missing stat is nil. */
  datatype Value = Int(i: int) | Str(s: string) | Bool(b: bool) | Nil | ConnRef(conn: Conn)

  /** Ruby truthiness: only nil and false are falsy. */
  predicate Truthy(v: Value) {
    !(v.Nil? || v == Bool(false))
  }

  /** `Object#to_s` for the values whose rendering the library relies on. */
  function ToS(v: Value): string {
    match v
    case Int(i) => Text.IntToS(i)
    case Str(s) => s
    case Bool(b) => if b then "true" else "false"
    case Nil => ""
    case ConnRef(c) => "#<Connection " + Text.NatToDecimal(c) + ">"
  }

  /** A Hash key is written either as a Symbol (`:age`) or as a String (`'age'`). */
  datatype KeyForm = Symbol | Text
  datatype Key = Key(name: string, form: KeyForm)

  /** The right-hand side of an option: a value compared with `===`. */
  datatype Matcher =
    | Exact(v: Value)                                // Integer, String, nil, ... : equality
    | Range(lo: int, hi: int)                        // lo..hi : inclusive containment
    | Pattern(source: string, test: string -> bool)  // Regexp : matches a String
    | Pred(source: string, f: Value -> bool)         // Proc : called with the value

  /** `m === live`. */
  predicate Accepts(m: Matcher, live: Value) {
    match m
    case Exact(v) => v == live
    case Range(lo, hi) => live.Int? && lo <= live.i <= hi
    case Pattern(_, test) => live.Str? && test(live.s)
    case Pred(_, f) => f(live)
  }

  /** Ruby's `to_s` of an option value: an Integer in decimal, a Range as
      `lo..hi`. A Regexp or Proc prints the rendering the matcher carries in
      its `source` field; Ruby's own forms (`(?-mix:...)` for a Regexp,
      `#<Proc:0x...>` for a Proc) are not reproduced. */
  function MatcherToS(m: Matcher): string {
    match m
    case Exact(v) => ToS(v)
    case Range(lo, hi) => Text.IntToS(lo) + ".." + Text.IntToS(hi)
    case Pattern(source, _) => source
    case Pred(source, _) => source
  }

  /** A Matcher Ruby reads as true: anything but nil or false. */
  predicate MatcherTruthy(m: Matcher) {
    !(m.Exact? && !Truthy(m.v))
  }

  /** The exceptions the modelled code raises or lets through. */
  datatype RubyError =
    | ArgumentError(message: string)
    | RuntimeError(message: string)
    | NotImplementedError
    | NoMethodError(name: string)
    | TypeError
    | RangeError

  /** An options Hash, in insertion order. */
  type Options = seq<(Key, Matcher)>

  predicate UniqueKeys(opts: Options) {
    forall i, j :: 0 <= i < j < |opts| ==> opts[i].0 != opts[j].0
  }

  /** `opts[k]`. */
  function Lookup(opts: Options, k: Key): (r: Option<Matcher>)
    ensures r.None? <==> forall i :: 0 <= i < |opts| ==> opts[i].0 != k
    ensures r.Some? ==> exists i :: 0 <= i < |opts| && opts[i] == (k, r.value)
  {
    if opts == [] then None
    else if opts[0].0 == k then Some(opts[0].1)
    else Lookup(opts[1..], k)
  }

  /** What `opts.delete(k)` leaves in the Hash: every entry except `k`'s, in order. */
  function Without(opts: Options, k: Key): (r: Options)
    ensures |r| <= |opts|
    ensures forall i :: 0 <= i < |r| ==> r[i].0 != k
    ensures forall i :: 0 <= i < |r| ==> r[i] in opts
    ensures forall e :: e in opts && e.0 != k ==> e in r
  {
    if opts == [] then []
    else if opts[0].0 == k then Without(opts[1..], k)
    else [opts[0]] + Without(opts[1..], k)
  }

  /** A native stats Hash with String keys, in insertion order. */
  type Stats = seq<(string, Value)>

  predicate UniqueNames(stats: Stats) {
    forall i, j :: 0 <= i < j < |stats| ==> stats[i].0 != stats[j].0
  }

  function Names(stats: Stats): (r: seq<string>)
    ensures |r| == |stats|
    ensures forall i :: 0 <= i < |stats| ==> r[i] == stats[i].0
  {
    if stats == [] then [] else [stats[0].0] + Names(stats[1..])
  }

  /** `stats[name]`, nil when absent. */
  function StatAt(stats: Stats, name: string): (r: Value)
    ensures (forall i :: 0 <= i < |stats| ==> stats[i].0 != name) ==> r == Nil
    ensures forall i ::
      (0 <= i < |stats| && stats[i].0 == name && forall j :: 0 <= j < i ==> stats[j].0 != name) ==> r == stats[i].1
  {
    if stats == [] then Nil
    else if stats[0].0 == name then stats[0].1
    else StatAt(stats[1..], name)
  }

  /** `stats.delete(name)`: the Hash without that name. */
  function WithoutStat(stats: Stats, name: string): (r: Stats)
    ensures forall i :: 0 <= i < |r| ==> r[i].0 != name
    ensures forall e :: e in r <==> e in stats && e.0 != name
    ensures |r| <= |stats|
  {
    if stats == [] then []
    else if stats[0].0 == name then WithoutStat(stats[1..], name)
    else [stats[0]] + WithoutStat(stats[1..], name)
  }
}
