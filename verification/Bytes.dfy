/** Bytes, 16-bit big-endian integers, and the sequence helpers every other module uses. */
module Bytes {

  type byte = b: int | 0 <= b < 256
  type bytes = seq<byte>

  datatype Option<+T> = None | Some(value: T)

  // ---- 16-bit integers -------------------------------------------------------------------

  const TWO_TO_THE_16 := 65536

  /** `u16::from_be_bytes`. */
  function Be16(hi: byte, lo: byte): (n: nat)
    ensures n < TWO_TO_THE_16
  {
    256 * hi + lo
  }

  /** `(n as u16).to_be_bytes()`: the cast keeps only the low 16 bits. */
  function U16(n: nat): (b: bytes)
    ensures |b| == 2
    ensures Be16(b[0], b[1]) == n % TWO_TO_THE_16
  {
    var low := n % TWO_TO_THE_16;
    [low / 256, low % 256]
  }

  lemma U16OfBe16(hi: byte, lo: byte)
    ensures U16(Be16(hi, lo)) == [hi, lo]
  {
    BytesOfSum(hi, lo);
  }

  lemma BytesOfSum(hi: byte, lo: byte)
    ensures var n := 256 * hi + lo;
      n % TWO_TO_THE_16 == n && n / 256 == hi && n % 256 == lo
  {
    var n := 256 * hi + lo;
    assert n == 256 * (n / 256) + n % 256;
    assert -256 < 256 * (hi - n / 256) < 256;
  }

  function ReadU16(data: bytes, offset: nat): (r: Option<nat>)
    ensures r.Some? <==> offset + 2 <= |data|
    ensures r.Some? ==> r.value < TWO_TO_THE_16
  {
    if offset + 2 > |data| then None else Some(Be16(data[offset], data[offset + 1]))
  }

  // ---- Chunks of a byte string -----------------------------------------------------------

  /** `chunk` stands in `data` at position `pos`. */
  predicate At(data: bytes, pos: nat, chunk: bytes) {
    pos + |chunk| <= |data| && data[pos..pos + |chunk|] == chunk
  }

  lemma AtConcat(data: bytes, pos: nat, a: bytes, b: bytes)
    requires At(data, pos, a + b)
    ensures At(data, pos, a)
    ensures At(data, pos + |a|, b)
  {
    var whole := data[pos..pos + |a + b|];
    assert data[pos..pos + |a|] == whole[..|a|] == a;
    assert data[pos + |a|..pos + |a| + |b|] == whole[|a|..] == b;
  }

  lemma AtJoined(data: bytes, pos: nat, a: bytes, b: bytes)
    requires At(data, pos, a) && At(data, pos + |a|, b)
    ensures At(data, pos, a + b)
  {
    assert data[pos..pos + |a| + |b|] == data[pos..pos + |a|] + data[pos + |a|..pos + |a| + |b|];
  }

  /** What stands inside a first part of the data stands there already. */
  lemma AtPrefix(data: bytes, whole: bytes, pos: nat, chunk: bytes)
    requires data <= whole && At(whole, pos, chunk) && pos + |chunk| <= |data|
    ensures At(data, pos, chunk)
  {
    assert data[pos..pos + |chunk|] == whole[pos..pos + |chunk|];
  }

  lemma AtBounds(data: bytes, pos: nat, chunk: bytes)
    requires At(data, pos, chunk)
    ensures pos + |chunk| <= |data|
  {
  }

  lemma AtIndex(data: bytes, pos: nat, chunk: bytes, i: nat)
    requires At(data, pos, chunk) && i < |chunk|
    ensures data[pos + i] == chunk[i]
  {
    assert data[pos + i] == data[pos..pos + |chunk|][i];
  }

  lemma AtU16(data: bytes, pos: nat, n: nat)
    requires At(data, pos, U16(n)) && n < TWO_TO_THE_16
    ensures pos + 2 <= |data| && Be16(data[pos], data[pos + 1]) == n
  {
    AtIndex(data, pos, U16(n), 0);
    AtIndex(data, pos, U16(n), 1);
  }

  // ---- Length-prefixed fields ------------------------------------------------------------

  function Prefixed8(field: bytes): (b: bytes)
    ensures |b| == 1 + |field|
  {
    [|field| % 256] + field
  }

  function Prefixed16(field: bytes): (b: bytes)
    ensures |b| == 2 + |field|
  {
    U16(|field|) + field
  }

  lemma AtPrefixed8(data: bytes, pos: nat, field: bytes)
    requires At(data, pos, Prefixed8(field)) && |field| < 256
    ensures data[pos] == |field| && At(data, pos + 1, field)
  {
    AtConcat(data, pos, [|field| % 256], field);
    AtIndex(data, pos, [|field| % 256], 0);
  }

  lemma AtPrefixed16(data: bytes, pos: nat, field: bytes)
    requires At(data, pos, Prefixed16(field)) && |field| < TWO_TO_THE_16
    ensures Be16(data[pos], data[pos + 1]) == |field| && At(data, pos + 2, field)
  {
    AtConcat(data, pos, U16(|field|), field);
    AtU16(data, pos, |field|);
  }

  lemma PrefixedAt8(data: bytes, pos: nat, field: bytes)
    requires pos < |data| && data[pos] == |field| && At(data, pos + 1, field)
    ensures At(data, pos, Prefixed8(field))
  {
    AtJoined(data, pos, [data[pos]], field);
  }

  lemma PrefixedAt16(data: bytes, pos: nat, field: bytes)
    requires pos + 2 <= |data| && Be16(data[pos], data[pos + 1]) == |field| && At(data, pos + 2, field)
    ensures At(data, pos, Prefixed16(field))
  {
    U16OfBe16(data[pos], data[pos + 1]);
    assert data[pos..pos + 2] == [data[pos], data[pos + 1]];
    AtJoined(data, pos, U16(|field|), field);
  }

  lemma AtSelf(data: bytes)
    ensures At(data, 0, data)
  {
  }

  // ---- Sequences -------------------------------------------------------------------------

  function Zeros(n: nat): (z: bytes)
    ensures |z| == n
  {
    seq(n, _ => 0)
  }

  function Flatten<T>(ss: seq<seq<T>>): seq<T> {
    if ss == [] then [] else ss[0] + Flatten(ss[1..])
  }

  lemma {:induction false} FlattenConcat<T>(a: seq<seq<T>>, b: seq<seq<T>>)
    ensures Flatten(a + b) == Flatten(a) + Flatten(b)
  {
    if a == [] {
      assert a + b == b;
    } else {
      assert (a + b)[1..] == a[1..] + b;
      FlattenConcat(a[1..], b);
    }
  }

  lemma FlattenSingle<T>(s: seq<T>)
    ensures Flatten([s]) == s
  {
    assert Flatten([s][1..]) == [];
  }

  lemma ConsConcat<T>(s: seq<T>, t: seq<T>)
    requires s != []
    ensures s + t == [s[0]] + (s[1..] + t)
  {
  }

  lemma ConcatAssociative<T>(a: seq<T>, b: seq<T>, c: seq<T>)
    ensures a + b + c == a + (b + c)
  {
  }

  lemma TakeDrop<T>(s: seq<T>, k: nat)
    requires k <= |s|
    ensures s[..k] + s[k..] == s
  {
  }

  lemma DropConcat<T>(a: seq<T>, b: seq<T>, k: nat)
    requires k <= |a| + |b|
    ensures (a + b)[k..] == if k <= |a| then a[k..] + b else b[k - |a|..]
  {
  }

  lemma DropPast<T>(a: seq<T>, b: seq<T>, k: nat)
    requires k <= |b|
    ensures (a + b)[|a| + k..] == b[k..]
  {
  }

  lemma TakeMore<T>(s: seq<T>, m: nat, n: nat)
    requires m + n <= |s|
    ensures s[..m] + s[m..m + n] == s[..m + n]
  {
  }

  lemma DropNone<T>(s: seq<T>)
    ensures s[0..] == s
  {
  }

  lemma DropDrop<T>(s: seq<T>, m: nat, n: nat)
    requires m + n <= |s|
    ensures s[m..][n..] == s[m + n..]
  {
  }

  /** The index of the first `x`, or the length when there is none. */
  function IndexOf<T(==)>(s: seq<T>, x: T): (i: nat)
    ensures i <= |s|
    ensures i < |s| ==> s[i] == x
    ensures forall j :: 0 <= j < i ==> s[j] != x
  {
    if s == [] || s[0] == x then 0 else 1 + IndexOf(s[1..], x)
  }

  lemma IndexOfIs<T>(s: seq<T>, x: T, i: nat)
    requires i <= |s| && x !in s[..i]
    requires i < |s| ==> s[i] == x
    ensures IndexOf(s, x) == i
  {
    assert forall j :: 0 <= j < i ==> s[j] == s[..i][j] && s[j] in s[..i];
  }

  /** `str::split` on one separator character. */
  function Split<T(==)>(s: seq<T>, sep: T): (parts: seq<seq<T>>)
    ensures |parts| >= 1
    ensures forall p :: p in parts ==> sep !in p
    decreases |s|
  {
    var i := IndexOf(s, sep);
    if i == |s| then [s] else [s[..i]] + Split(s[i + 1..], sep)
  }

  function Join<T>(parts: seq<seq<T>>, sep: seq<T>): seq<T> {
    if parts == [] then []
    else if |parts| == 1 then parts[0]
    else parts[0] + sep + Join(parts[1..], sep)
  }

  lemma JoinCons<T>(part: seq<T>, rest: seq<seq<T>>, sep: seq<T>)
    requires rest != []
    ensures Join([part] + rest, sep) == part + sep + Join(rest, sep)
  {
    assert ([part] + rest)[1..] == rest;
  }

  /** Splitting loses nothing: joining the parts gives the text back. */
  lemma {:induction false} JoinOfSplit<T>(s: seq<T>, sep: T)
    ensures Join(Split(s, sep), [sep]) == s
    decreases |s|
  {
    var i := IndexOf(s, sep);
    if i < |s| {
      hide Join;
      JoinOfSplit(s[i + 1..], sep);
      JoinCons(s[..i], Split(s[i + 1..], sep), [sep]);
      TakeOneDrop(s, i);
    }
  }

  lemma TakeOneDrop<T>(s: seq<T>, i: nat)
    requires i < |s|
    ensures s[..i] + [s[i]] + s[i + 1..] == s
  {
  }

  /** Splitting a separator-free word followed by a separator. */
  lemma SplitCons<T>(word: seq<T>, sep: T, rest: seq<T>)
    requires sep !in word
    ensures Split(word + [sep] + rest, sep) == [word] + Split(rest, sep)
  {
    var s := word + [sep] + rest;
    assert s[..|word|] == word;
    IndexOfIs(s, sep, |word|);
    assert s[|word| + 1..] == rest;
  }
}
