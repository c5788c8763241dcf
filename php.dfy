/** The few PHP built-ins whose exact semantics the two scripts depend on:
    byte strings, `empty()`, `strlen`, `??`, the username regular expression
    and `implode`. */
module Php {

  /** PHP strings are byte strings. */
  newtype byte = x: int | 0 <= x < 256

  type Bytes = seq<byte>

  datatype Option<T> = None | Some(value: T)

  /** The byte of a character in the one-byte range (used for literals). */
  function B(c: char): byte
    requires c as int < 256
  {
    c as int as byte
  }

  /** A string literal of one-byte characters, as the bytes PHP sees. */
  function AsciiBytes(s: string): (b: Bytes)
    requires forall i | 0 <= i < |s| :: s[i] as int < 256
    ensures |b| == |s|
    ensures forall i | 0 <= i < |s| :: b[i] as int == s[i] as int
  {
    seq(|s|, i requires 0 <= i < |s| => B(s[i]))
  }

  /** `$x ?? ''` for a form field that may be absent. */
  function OrEmpty(field: Option<Bytes>): Bytes
  {
    if field.Some? then field.value else []
  }

  /** PHP `empty()` on a string: true for "" and also for "0". */
  predicate Empty(s: Bytes)
  {
    s == [] || s == [B('0')]
  }

  /** `strlen` counts bytes, not characters. */
  function StrLen(s: Bytes): nat
  {
    |s|
  }

  /** A byte of the character class `[a-zA-Z0-9_-]`. */
  predicate IsNameByte(b: byte)
  {
    || (B('a') <= b <= B('z'))
    || (B('A') <= b <= B('Z'))
    || (B('0') <= b <= B('9'))
    || b == B('_')
    || b == B('-')
  }

  /** Every byte of `s` is in `[a-zA-Z0-9_-]`. */
  predicate AllNameBytes(s: Bytes)
  {
    forall i | 0 <= i < |s| :: IsNameByte(s[i])
  }

  /** `s` without one final "\n", if it has one. */
  function DropFinalNewline(s: Bytes): Bytes
  {
    if |s| > 0 && s[|s| - 1] == B('\n') then s[..|s| - 1] else s
  }

  /** `preg_match('/^[a-zA-Z0-9_-]+$/', s) === 1`.  Without the `D`
      modifier PCRE's `$` also matches just before a final "\n", so one
      trailing newline is let through; without the `u` modifier the class
      is matched byte by byte. */
  predicate MatchesUsernamePattern(s: Bytes)
  {
    |DropFinalNewline(s)| > 0 && AllNameBytes(DropFinalNewline(s))
  }

  /** The regex read as a search for a match: `^` anchors at 0, `[...]+`
      consumes the bytes before `k`, and `$` holds at `k` (end of subject,
      or just before a final newline). */
  predicate MatchEndsAt(s: Bytes, k: int)
  {
    && 0 < k <= |s|
    && (k == |s| || (k == |s| - 1 && s[k] == B('\n')))
    && forall i | 0 <= i < k :: IsNameByte(s[i])
  }

  lemma PatternIsAnchoredMatch(s: Bytes)
    ensures MatchesUsernamePattern(s) <==> exists k :: MatchEndsAt(s, k)
  {
    var body := DropFinalNewline(s);
    var k := |body|;
    assert body == s[..k];
    if MatchesUsernamePattern(s) {
      forall i | 0 <= i < k ensures IsNameByte(s[i]) {
        assert s[i] == body[i];
      }
      assert MatchEndsAt(s, k);
    }
    if j :| MatchEndsAt(s, j) {
      // the newline is not a name byte, so no match runs over it
      assert k < |s| ==> !IsNameByte(s[|s| - 1]);
      assert j == k;
      forall i | 0 <= i < k ensures IsNameByte(body[i]) {
        assert body[i] == s[i];
      }
    }
  }

  /** `implode($glue, $pieces)`. */
  function Implode(glue: string, pieces: seq<string>): string
  {
    if pieces == [] then ""
    else if |pieces| == 1 then pieces[0]
    else pieces[0] + glue + Implode(glue, pieces[1..])
  }

  /** Adding a piece adds the glue and that piece at the end. */
  lemma {:induction false} ImplodeAppend(glue: string, pieces: seq<string>, last: string)
    requires pieces != []
    ensures Implode(glue, pieces + [last]) == Implode(glue, pieces) + glue + last
    decreases |pieces|
  {
    var all := pieces + [last];
    assert all[1..] == pieces[1..] + [last];
    if |pieces| > 1 {
      ImplodeAppend(glue, pieces[1..], last);
    }
  }
}
