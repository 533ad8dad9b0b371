/** What the other modules share. */
module Wire {
  datatype Option<+T> = None | Some(value: T)

  newtype byte = x: int | 0 <= x < 256
  type Bytes = seq<byte>

  /** The number that bytes stand for in network order. */
  function Number(b: Bytes): nat {
    if b == [] then 0 else Number(b[..|b| - 1]) * 256 + b[|b| - 1] as nat
  }

  lemma NumberOfTwo(x: byte, y: byte)
    ensures Number([x, y]) == x as nat * 256 + y as nat
  {
    var none: Bytes := [];
    assert [x, y][..1] == [x] && [x][..0] == none;
    assert Number(none) == 0 && Number([x]) == x as nat;
  }

  lemma NumberOfFour(w: byte, x: byte, y: byte, z: byte)
    ensures Number([w, x, y, z]) == w as nat * 0x1000000 + x as nat * 0x10000 + y as nat * 0x100 + z as nat
  {
    NumberOfTwo(w, x);
    assert [w, x, y][..2] == [w, x] && [w, x, y, z][..3] == [w, x, y];
  }

  function LowerChar(c: char): char {
    if 'A' <= c <= 'Z' then (c as int + 32) as char else c
  }

  /** One character is a capital of the ASCII alphabet and the other its small letter. */
  predicate Capital(a: char, b: char) {
    65 <= a as int <= 90 && b as int == a as int + 32
  }

  predicate SameLetter(a: char, b: char) { a == b || Capital(a, b) || Capital(b, a) }

  /** What strcasecmp calls equal: as long, and character by character the same up to case. */
  ghost predicate SameText(a: string, b: string) {
    |a| == |b| && forall i :: 0 <= i < |a| ==> SameLetter(a[i], b[i])
  }

  lemma LowerIsLetter(a: char, b: char)
    ensures LowerChar(a) == LowerChar(b) <==> SameLetter(a, b)
  {
  }

  function Lower(s: string): string { seq(|s|, i requires 0 <= i < |s| => LowerChar(s[i])) }

  lemma LowerIsText(a: string, b: string)
    ensures Lower(a) == Lower(b) <==> SameText(a, b)
  {
    if Lower(a) == Lower(b) {
      forall i | 0 <= i < |a| ensures SameLetter(a[i], b[i]) {
        assert Lower(a)[i] == Lower(b)[i];
        LowerIsLetter(a[i], b[i]);
      }
    }
    if SameText(a, b) {
      forall i | 0 <= i < |a| ensures Lower(a)[i] == Lower(b)[i] { LowerIsLetter(a[i], b[i]); }
    }
  }

  lemma Assoc<T>(a: seq<T>, b: seq<T>, c: seq<T>)
    ensures (a + b) + c == a + (b + c)
  {
  }
}
