/**
 * python/data_structures/HashMap/SimpleAdditionHash.py: the hash code of a key is the sum of the
 * bytes of its UTF-8 encoding, and attempt `a` after a collision probes `a` further on.
 */
module SimpleAdditionHash {

  /** The UTF-8 encoding of one character (Python's `str.encode()`), one to four bytes. */
  function Utf8(c: char): (r: seq<int>)
    ensures 1 <= |r| <= 4
    ensures forall i | 0 <= i < |r| :: 0 <= r[i] < 256
    ensures (c as int < 0x80) <==> |r| == 1
    ensures c as int < 0x80 ==> r == [c as int]
  {
    var n := c as int;
    if n < 0x80 then [n]
    else if n < 0x800 then [0xC0 + n / 0x40, 0x80 + n % 0x40]
    else if n < 0x1_0000 then [0xE0 + n / 0x1000, 0x80 + (n / 0x40) % 0x40, 0x80 + n % 0x40]
    else [0xF0 + n / 0x4_0000, 0x80 + (n / 0x1000) % 0x40, 0x80 + (n / 0x40) % 0x40, 0x80 + n % 0x40]
  }

  /** `key.encode()`: the characters' encodings one after another. */
  function Encode(key: string): (r: seq<int>)
    ensures |key| <= |r| <= 4 * |key|
    ensures forall i | 0 <= i < |r| :: 0 <= r[i] < 256
  {
    if key == [] then [] else Utf8(key[0]) + Encode(key[1..])
  }

  function Sum(bytes: seq<int>): int
  {
    if bytes == [] then 0 else bytes[0] + Sum(bytes[1..])
  }

  lemma {:induction false} SumAppend(a: seq<int>, b: seq<int>)
    ensures Sum(a + b) == Sum(a) + Sum(b)
  {
    if a == [] {
      assert a + b == b;
    } else {
      assert (a + b)[1..] == a[1..] + b;
      SumAppend(a[1..], b);
    }
  }

  lemma {:induction false} SumBounds(bytes: seq<int>)
    requires forall i | 0 <= i < |bytes| :: 0 <= bytes[i] < 256
    ensures 0 <= Sum(bytes) <= 255 * |bytes|
  {
    if bytes != [] {
      SumBounds(bytes[1..]);
    }
  }

  /** `hash_key`: the sum of the key's UTF-8 bytes. */
  function HashKey(key: string): (r: int)
    ensures 0 <= r <= 255 * 4 * |key|
    ensures key == "" ==> r == 0
  {
    SumBounds(Encode(key));
    Sum(Encode(key))
  }

  /** `handle_collision`: linear probing, the hash code plus the attempt number. */
  function HandleCollision(key: string, attempt: int): (r: int)
    ensures r - attempt == HashKey(key)
  {
    HashKey(key) + attempt
  }

  /** The hash of a concatenation is the sum of the hashes. */
  lemma {:induction false} HashKeyAppend(s: string, t: string)
    ensures HashKey(s + t) == HashKey(s) + HashKey(t)
  {
    if s == [] {
      assert s + t == t;
    } else {
      assert (s + t)[0] == s[0] && (s + t)[1..] == s[1..] + t;
      HashKeyAppend(s[1..], t);
      SumAppend(Utf8(s[0]), Encode(s[1..] + t));
      SumAppend(Utf8(s[0]), Encode(s[1..]));
    }
  }

  /**
   * Being a sum, the hash ignores order: swapping two parts of a key, such as "ab" and "ba",
   * gives the same hash code.
   */
  lemma HashKeyOrderFree(s: string, t: string)
    ensures HashKey(s + t) == HashKey(t + s)
  {
    HashKeyAppend(s, t);
    HashKeyAppend(t, s);
  }

  /** For a key of ASCII characters the hash is the sum of their codes. */
  lemma {:induction false} AsciiHash(key: string)
    requires forall i | 0 <= i < |key| :: key[i] as int < 0x80
    ensures HashKey(key) == Sum(seq(|key|, i requires 0 <= i < |key| => key[i] as int))
  {
    if key != [] {
      AsciiHash(key[1..]);
      assert seq(|key|, i requires 0 <= i < |key| => key[i] as int)[1..]
          == seq(|key[1..]|, i requires 0 <= i < |key[1..]| => key[1..][i] as int);
    }
  }
}
