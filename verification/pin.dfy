/**
  The PIN callback that gnutls calls when a token needs its PIN
  (pin_callback): it composes a warning from the flag bits gnutls passes,
  asks for the PIN in a password dialog, and copies the answer into the
  caller's buffer as a C string, cut short to fit.

  The dialog is an input: the user either cancels it or confirms it, and a
  confirmed value arrives already converted to UTF-8 bytes, or as nothing
  when that conversion fails. The caller's buffer of `pin_max` bytes is a
  sequence of that length.
*/
module Pin {
  import opened Wrappers

  /** Flag bits of gnutls_pin_flag_t that the callback looks at. */
  const FinalTry: bv32 := 4
  const CountLow: bv32 := 8
  const Wrong: bv32 := 32

  /** The three bits together; no other bit changes what the callback does. */
  const WarningBits: bv32 := FinalTry | CountLow | Wrong

  const FinalTryMessage := "ADVERTENCIA: \U{00A1}ESTE ES EL \U{00DA}LTIMO INTENTO ANTES DE BLOQUEAR LA TARJETA!\n\n"
  const CountLowMessage := "AVISO: \U{00A1}quedan pocos intentos antes de BLOQUEAR la tarjeta!\n\n"
  const WrongMessage := "PIN INCORRECTO\n\n"
  const PromptLead := "Introducir el PIN de la tarjeta "

  /** The messages for the set flags, always in the order final try, count low, wrong PIN. */
  function Warning(flags: bv32): string {
    (if flags & FinalTry != 0 then FinalTryMessage else "") +
    (if flags & CountLow != 0 then CountLowMessage else "") +
    (if flags & Wrong != 0 then WrongMessage else "")
  }

  /**
    The warning tells exactly which of the three flags are set: two flag
    words give the same warning if and only if they agree on those bits.
  */
  lemma WarningDeterminesFlags(f: bv32, g: bv32)
    ensures Warning(f) == Warning(g) <==> f & WarningBits == g & WarningBits
  {
    var a, b, c := |FinalTryMessage|, |CountLowMessage|, |WrongMessage|;
    assert a == 71 && b == 61 && c == 16;
    assert |Warning(f)| == (if f & FinalTry != 0 then a else 0) + (if f & CountLow != 0 then b else 0) + (if f & Wrong != 0 then c else 0);
    assert |Warning(g)| == (if g & FinalTry != 0 then a else 0) + (if g & CountLow != 0 then b else 0) + (if g & Wrong != 0 then c else 0);
    BitsOfWarningMask(f, g);
  }

  lemma BitsOfWarningMask(f: bv32, g: bv32)
    ensures f & WarningBits == g & WarningBits <==>
      ((f & FinalTry != 0) == (g & FinalTry != 0) &&
       (f & CountLow != 0) == (g & CountLow != 0) &&
       (f & Wrong != 0) == (g & Wrong != 0))
  {
  }

  /** The text of the password dialog. */
  function Prompt(flags: bv32, tokenLabel: string): string {
    Warning(flags) + PromptLead + tokenLabel + ":"
  }

  /** The token label can be read back out of the prompt, between the fixed lead and the final colon. */
  lemma PromptShowsLabel(flags: bv32, tokenLabel: string)
    ensures var p, w := Prompt(flags, tokenLabel), |Warning(flags)| + |PromptLead|;
      w + |tokenLabel| + 1 == |p| && p[w..|p| - 1] == tokenLabel && p[|p| - 1] == ':'
  {
  }

  /** strlen: the position of the first NUL, or the whole length when there is none. */
  function CStrLen(v: seq<byte>): (n: nat)
    ensures n <= |v|
    ensures forall i :: 0 <= i < n ==> v[i] != 0
    ensures n < |v| ==> v[n] == 0
  {
    if |v| == 0 || v[0] == 0 then 0 else 1 + CStrLen(v[1..])
  }

  /** The C string held by a buffer: everything before the first NUL. */
  function CStr(v: seq<byte>): seq<byte> {
    v[..CStrLen(v)]
  }

  function Min(a: int, b: int): int {
    if a < b then a else b
  }

  /**
    The copy into the caller's buffer: the first `min(pin_max - 1, strlen(v))`
    bytes of `v`, then a NUL. Reading the buffer back as a C string gives a
    prefix of `v`'s C string, all of it when it fits, and the bytes after the
    NUL are left as they were.
  */
  function Store(pin: seq<byte>, v: seq<byte>): (r: seq<byte>)
    requires |pin| >= 1
    ensures |r| == |pin|
    ensures CStr(r) == CStr(v)[..Min(|pin| - 1, CStrLen(v))]
    ensures CStr(r) <= CStr(v)
    ensures CStrLen(v) < |pin| ==> CStr(r) == CStr(v)
    ensures r[|CStr(r)| + 1..] == pin[|CStr(r)| + 1..]
  {
    var len := Min(|pin| - 1, CStrLen(v));
    var r := v[..len] + [0] + pin[len + 1..];
    assert r[len] == 0;
    assert forall i :: 0 <= i < len ==> r[i] == v[i];
    r
  }

  /** What the user did with the password dialog. */
  datatype Entry =
    | Cancelled
      /** OK was pressed; `converted` is the UTF-8 form of the value, or None when the conversion gave no buffer. */
    | Confirmed(converted: Option<seq<byte>>)

  /** The dialog was confirmed with a value whose C string is not empty. */
  predicate Accepted(e: Entry) {
    e.Confirmed? && e.converted.Some? && CStrLen(e.converted.value) > 0
  }

  /**
    What one call produces: the dialog text shown, whether the "blank PIN"
    message box was shown, the return value and the caller's buffer.
  */
  datatype Reply = Reply(prompt: string, blankNotice: bool, status: int, pin: seq<byte>)

  /**
    pin_callback of pin.cpp. It returns 0 exactly when the dialog was
    confirmed with a non-blank value, and then the buffer holds that value as
    Store writes it. Otherwise it returns -1 and the buffer is untouched; a
    confirmed but blank value also shows the "blank PIN" message.
  */
  function PinCallback(flags: bv32, tokenLabel: string, entry: Entry, pin: seq<byte>): (r: Reply)
    requires |pin| >= 1
    ensures r.prompt == Prompt(flags, tokenLabel)
    ensures r.status == 0 <==> Accepted(entry)
    ensures r.status == 0 || r.status == -1
    ensures r.status == -1 ==> r.pin == pin
    ensures r.status == 0 ==> r.pin == Store(pin, entry.converted.value)
    ensures r.blankNotice <==> entry.Confirmed? && !Accepted(entry)
  {
    var prompt := Prompt(flags, tokenLabel);
    match entry
    case Cancelled => Reply(prompt, false, -1, pin)
    case Confirmed(converted) =>
      if converted.None? || |converted.value| == 0 || converted.value[0] == 0 then Reply(prompt, true, -1, pin)
      else Reply(prompt, false, 0, Store(pin, converted.value))
  }
}
