/** Writing: what `padlock_set` makes of the content of a file. */
module Append {
  import opened Bytes
  import opened Words
  import opened Cipher
  import opened Header
  import opened Records

  /** Where the environment stops a call: at opening, at an allocation, in the middle of the record
      (leaving some bytes behind), or between the record and the header. */
  datatype SetFault = NoFault | OpenFails | NoMemory | WriteStops(left: seq<byte>) | HeaderFails

  /** `Overrun`: the entry is longer than the buffer computed for it, or the sealed secret longer than its
      buffer; C gives the call no meaning and the model says nothing about the file afterwards. */
  datatype SetOutcome = Stored | Refused | Overrun

  datatype SetResult = SetResult(outcome: SetOutcome, file: seq<byte>)

  /** What a call is about to write. */
  datatype Plan = Ready(header: Header, cipher: seq<byte>) | Denied | Overruns

  ghost function PlanSet(s: Suite, file: seq<byte>, password: seq<byte>, e: Entry, memory: bool): (p: Plan)
    requires |e.value| < U32
    ensures p.Ready? ==>
              && e.Storable() && ParseHeader(file) == Some(p.header) && p.header.Typed()
              && |p.cipher| == PaddedLength(e) && p.header.writeOffset < OFF_LIMIT
  {
    if !(1 <= |e.key| <= 255) then Denied
    else
      match ParseHeader(file)
      case None => Denied
      case Some(h) =>
        FieldsTyped(file);
        match DecryptSecret(s, password, h)
        case Wrong => Denied
        case SecretOverruns => Overruns
        case Opened(xtsKey) =>
          var padded := Rounded(e.PlainLength());
          if padded < 16 || Add64(h.writeOffset, padded) > h.totalSize || !memory then Denied
          else if padded < e.PlainLength() then Overruns
          else
            match CryptXts(s, true, xtsKey, h.writeOffset, RecordBytes(e))
            case None => Denied
            case Some(cipher) => if h.writeOffset >= OFF_LIMIT then Denied else Ready(h, cipher)
  }

  /** The writes of a call, up to where the environment stops it. */
  ghost function CarryOut(file: seq<byte>, p: Plan, fault: SetFault): SetResult
    requires p.Ready? ==> p.header.Typed()
  {
    match p
    case Denied => SetResult(Refused, file)
    case Overruns => SetResult(Overrun, file)
    case Ready(h, cipher) =>
      if fault.WriteStops? then
        SetResult(Refused, WriteAt(file, h.writeOffset, fault.left[..Min(|fault.left|, |cipher|)]))
      else
        var written := WriteAt(file, h.writeOffset, cipher);
        if fault.HeaderFails? then SetResult(Refused, written)
        else SetResult(Stored, WriteAt(written, 0, HeaderBytes(h.(writeOffset := Add64(h.writeOffset, |cipher|)))))
  }

  ghost function SetOn(s: Suite, file: seq<byte>, password: seq<byte>, e: Entry, fault: SetFault): SetResult
    requires |e.value| < U32
  {
    if fault.OpenFails? then SetResult(Refused, file)
    else CarryOut(file, PlanSet(s, file, password, e, !fault.NoMemory?), fault)
  }
}
