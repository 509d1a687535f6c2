/**
 * HTTP header values as the `http` crate's `HeaderValue` holds them: raw bytes,
 * each a tab or at least 0x20 and not DEL (0x7F); its checked constructors
 * refuse every other byte. `to_str` yields text only when every byte is
 * visible ASCII or a tab, so bytes 0x80 to 0xFF (obs-text) are held but are
 * not text.
 */
module HeaderValues {
  import opened Bytes
  import opened Wrappers

  /** A byte a `HeaderValue` can hold. */
  predicate IsHeaderByte(b: byte) {
    b == 9 || (32 <= b && b != 127)
  }

  type HeaderValue = v: seq<byte> | forall i :: 0 <= i < |v| ==> IsHeaderByte(v[i])

  /** The bytes `HeaderValue::to_str` accepts: a tab, or 0x20 to 0x7E. */
  predicate IsVisibleAscii(b: byte) {
    b == 9 || (32 <= b < 127)
  }

  /** `HeaderValue::to_str`: the value as text, or nothing when some byte is not visible ASCII. */
  function ToStr(v: HeaderValue): (r: Option<string>)
    ensures r.Some? <==> forall i :: 0 <= i < |v| ==> IsVisibleAscii(v[i])
    ensures r.Some? ==> |r.value| == |v| && forall i :: 0 <= i < |v| ==> r.value[i] as int == v[i] as int
  {
    if forall i :: 0 <= i < |v| ==> IsVisibleAscii(v[i])
    then Some(seq(|v|, i requires 0 <= i < |v| => v[i] as int as char))
    else None
  }

  /** Text made only of tabs and visible ASCII characters. */
  predicate IsVisibleText(s: string) {
    forall i :: 0 <= i < |s| ==> s[i] == '\t' || (' ' <= s[i] <= '~')
  }

  /** The header value a client sends for a visible-ASCII text: its bytes. */
  function FromText(s: string): (v: HeaderValue)
    requires IsVisibleText(s)
    ensures |v| == |s| && forall i :: 0 <= i < |s| ==> v[i] as int == s[i] as int
  {
    seq(|s|, i requires 0 <= i < |s| => s[i] as int as byte)
  }

  /** Text made of visible ASCII survives the trip into a header value and back. */
  lemma ToStrFromText(s: string)
    requires IsVisibleText(s)
    ensures ToStr(FromText(s)) == Some(s)
  {
    var r := ToStr(FromText(s));
    assert r.Some?;
    assert forall i :: 0 <= i < |s| ==> r.value[i] == s[i];
    assert r.value == s;
  }
}
