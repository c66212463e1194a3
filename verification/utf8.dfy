/** How Go's `for i := range s` walks a string: it decodes one UTF-8
    encoded rune at a time and yields the byte offset where each rune
    starts. A byte that does not begin a well-formed encoding (the
    well-formed sequences are those of section 4 of RFC 3629) is read as
    a one-byte replacement rune, so decoding never gets stuck.
 */
module Utf8 {

  type Byte = b: int | 0 <= b < 256

  predicate IsContinuation(b: Byte) {
    0x80 <= b <= 0xBF
  }

  predicate IsAscii(s: seq<Byte>) {
    forall i :: 0 <= i < |s| ==> s[i] < 0x80
  }

  /** Width in bytes of the rune that starts `s`, following the
      well-formed byte-sequence table of section 4 of RFC 3629; an
      ill-formed start counts as one byte. */
  function RuneWidth(s: seq<Byte>): (n: nat)
    requires |s| > 0
    ensures 1 <= n <= 4 && n <= |s|
    ensures s[0] < 0x80 ==> n == 1
    ensures n > 1 ==> forall k :: 1 <= k < n ==> IsContinuation(s[k])
  {
    var b0 := s[0];
    if b0 < 0x80 then 1
    else if 0xC2 <= b0 <= 0xDF then
      if |s| >= 2 && IsContinuation(s[1]) then 2 else 1
    else if 0xE0 <= b0 <= 0xEF then
      var lo := if b0 == 0xE0 then 0xA0 else 0x80;
      var hi := if b0 == 0xED then 0x9F else 0xBF;
      if |s| >= 3 && lo <= s[1] <= hi && IsContinuation(s[2]) then 3 else 1
    else if 0xF0 <= b0 <= 0xF4 then
      var lo := if b0 == 0xF0 then 0x90 else 0x80;
      var hi := if b0 == 0xF4 then 0x8F else 0xBF;
      if |s| >= 4 && lo <= s[1] <= hi && IsContinuation(s[2]) && IsContinuation(s[3]) then 4 else 1
    else 1
  }

  /** The bytes `s[i]` for every rune-start offset `i` that `range`
      yields, in order: one byte per rune, never more bytes than `s`. */
  function RuneLeadBytes(s: seq<Byte>): (r: seq<Byte>)
    ensures |r| <= |s|
    decreases |s|
  {
    if |s| == 0 then []
    else
      var w := RuneWidth(s);
      [s[0]] + RuneLeadBytes(s[w..])
  }

  /** The walk yields the first byte first, and it yields every byte
      exactly when it yields as many bytes as `s` has, in particular
      when `s` is ASCII. */
  lemma {:induction false} RuneLeadBytesShape(s: seq<Byte>)
    ensures |s| > 0 ==> 0 < |RuneLeadBytes(s)| && RuneLeadBytes(s)[0] == s[0]
    ensures IsAscii(s) ==> RuneLeadBytes(s) == s
    ensures |RuneLeadBytes(s)| == |s| ==> RuneLeadBytes(s) == s
    decreases |s|
  {
    if |s| > 0 {
      var w := RuneWidth(s);
      RuneLeadBytesShape(s[w..]);
      if IsAscii(s) || |RuneLeadBytes(s)| == |s| {
        assert w == 1;
        assert IsAscii(s) ==> IsAscii(s[1..]);
        assert s == [s[0]] + s[1..];
      }
    }
  }

  /** The same walk in loop form: from offset `i`, each rune's first
      byte is appended to `acc`. */
  function LeadBytesFrom(s: seq<Byte>, i: nat, acc: seq<Byte>): seq<Byte>
    decreases |s| - i
  {
    if i >= |s| then acc
    else LeadBytesFrom(s, i + RuneWidth(s[i..]), acc + [s[i]])
  }

  /** The loop form computes the recursive one: what it appends from
      offset `i` on is the walk of the rest of the string. */
  lemma {:induction false} LeadBytesFromIsAppend(s: seq<Byte>, i: nat, acc: seq<Byte>)
    requires i <= |s|
    ensures LeadBytesFrom(s, i, acc) == acc + RuneLeadBytes(s[i..])
    decreases |s| - i
  {
    if i < |s| {
      var w := RuneWidth(s[i..]);
      LeadBytesFromIsAppend(s, i + w, acc + [s[i]]);
      assert s[i..][w..] == s[i + w..];
      assert RuneLeadBytes(s[i..]) == [s[i]] + RuneLeadBytes(s[i + w..]);
      assert (acc + [s[i]]) + RuneLeadBytes(s[i + w..]) == acc + ([s[i]] + RuneLeadBytes(s[i + w..]));
    } else {
      assert s[i..] == [];
    }
  }
}
