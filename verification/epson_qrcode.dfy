/** The ESC/POS byte sequence that makes an Epson printer print a QR code:
    the `GS ( k` functions 165 (select model), 167 (module size), 169 (error
    correction level), 180 (store data) and 181 (print the stored symbol). */
module EpsonQRCode {
  import opened Wrappers
  import opened Bytes

  /** `QRModel`. */
  const Model1: int := 1
  const Model2: int := 2
  const Micro: int := 3

  /** `QRErrorCorrectionLevel`; `L` is 0. */
  const LevelL: int := 0
  const LevelM: int := 1
  const LevelQ: int := 2
  const LevelH: int := 3

  const DefaultSize: int := 3
  const MinSize: int := 1
  const MaxSize: int := 16
  const SizeError: string := "QR code size must be between 1 and 16"

  /** The optional settings of `generate`; absent fields are `None`. */
  datatype QrOptions = QrOptions(model: Option<int>, size: Option<int>, errorCorrectionLevel: Option<int>)

  const NoOptions: QrOptions := QrOptions(None, None, None)

  /** `value || fallback` on an optional number: absent and 0 are falsy. */
  function OrDefault(value: Option<int>, fallback: int): (r: int)
    ensures value.Some? && value.value != 0 ==> r == value.value
    ensures value.None? || value.value == 0 ==> r == fallback
  {
    if value.Some? && value.value != 0 then value.value else fallback
  }

  function EffectiveModel(o: QrOptions): int { OrDefault(o.model, Model2) }
  function EffectiveSize(o: QrOptions): int { OrDefault(o.size, DefaultSize) }
  function EffectiveLevel(o: QrOptions): int { OrDefault(o.errorCorrectionLevel, LevelM) }

  /** `GS ( k`, the start of every command. */
  const Prefix: seq<Byte> := [0x1D, 0x28, 0x6B]

  function SelectModel(model: int): seq<Byte> {
    Prefix + [0x04, 0x00, 0x31, 0x41, ToByte(model), 0x00]
  }

  function SetSize(size: int): seq<Byte> {
    Prefix + [0x03, 0x00, 0x31, 0x43, ToByte(size)]
  }

  function SetLevel(level: int): seq<Byte> {
    Prefix + [0x03, 0x00, 0x31, 0x45, ToByte(level)]
  }

  /** Store header with the parameter length `pL = n + 3` split into
      `pL % 256` and `floor(pL / 256)`, the latter truncated to a byte, then
      the data. */
  function StoreData(data: seq<Byte>): seq<Byte> {
    var pL := |data| + 3;
    Prefix + [pL % 256, ToByte(pL / 256), 0x31, 0x50, 0x30] + data
  }

  const PrintSymbol: seq<Byte> := Prefix + [0x03, 0x00, 0x31, 0x51, 0x30]

  /** Offsets of the five commands in the output. */
  const SizeOffset: nat := 9
  const LevelOffset: nat := 17
  const StoreOffset: nat := 25
  const DataOffset: nat := 33

  /** The five commands one after another, for already-defaulted settings. */
  function Layout(model: int, size: int, level: int, data: seq<Byte>): (out: seq<Byte>)
    ensures |out| == 41 + |data|
    ensures out[..3] == Prefix && out[SizeOffset..SizeOffset + 3] == Prefix
    ensures out[LevelOffset..LevelOffset + 3] == Prefix
    ensures out[StoreOffset..StoreOffset + 3] == Prefix
    ensures out[DataOffset + |data|..DataOffset + |data| + 3] == Prefix
    ensures out[7] == ToByte(model) && out[16] == ToByte(size) && out[24] == ToByte(level)
    ensures out[28] == (|data| + 3) % 256 && out[29] == ToByte((|data| + 3) / 256)
    ensures out[DataOffset..DataOffset + |data|] == data
  {
    var out := SelectModel(model) + SetSize(size) + SetLevel(level) + StoreData(data) + PrintSymbol;
    assert out[DataOffset..DataOffset + |data|] == StoreData(data)[8..];
    out
  }

  /** `EpsonQRCode.generate(data, options)`, with `data` already UTF-8
      encoded: defaults are applied with `||`, then a size outside 1..16
      throws. */
  function Generate(data: seq<Byte>, options: QrOptions): (r: Result<seq<Byte>, string>)
    ensures r.Failure? <==> EffectiveSize(options) < MinSize || EffectiveSize(options) > MaxSize
    ensures r.Failure? ==> r.error == SizeError
    ensures r.Success? ==> |r.value| == 41 + |data|
    ensures r.Success? ==> r.value[7] == ToByte(EffectiveModel(options))
    ensures r.Success? ==> r.value[16] == EffectiveSize(options)
    ensures r.Success? ==> r.value[24] == ToByte(EffectiveLevel(options))
    ensures r.Success? ==> r.value[DataOffset..DataOffset + |data|] == data
  {
    var model := EffectiveModel(options);
    var size := EffectiveSize(options);
    var level := EffectiveLevel(options);
    if size < MinSize || size > MaxSize then Failure(SizeError)
    else Success(Layout(model, size, level, data))
  }

  /** The settings and data a well-formed command sequence carries. */
  datatype QrCommands = QrCommands(model: Byte, size: Byte, level: Byte, data: seq<Byte>)

  /** Reads a command sequence back: checks every fixed byte, takes the data
      length from the store command's length field and the settings from
      their offsets. */
  function Decode(out: seq<Byte>): Option<QrCommands> {
    if |out| < 41 then None
    else
      var n: int := out[28] as int + 256 * (out[29] as int) - 3;
      if n < 0 || |out| != 41 + n then None
      else if out[..7] != Prefix + [0x04, 0x00, 0x31, 0x41] || out[8] != 0x00
           || out[9..16] != Prefix + [0x03, 0x00, 0x31, 0x43]
           || out[17..24] != Prefix + [0x03, 0x00, 0x31, 0x45]
           || out[25..28] != Prefix || out[30..33] != [0x31, 0x50, 0x30]
           || out[33 + n..] != PrintSymbol
      then None
      else Some(QrCommands(out[7], out[16], out[24], out[33..33 + n]))
  }

  /** Decoding the layout recovers the settings (as bytes) and the data,
      provided the length field does not overflow its two bytes. */
  lemma DecodeLayout(model: int, size: int, level: int, data: seq<Byte>)
    requires |data| + 3 < 0x1_0000
    ensures Decode(Layout(model, size, level, data)) == Some(QrCommands(ToByte(model), ToByte(size), ToByte(level), data))
  {
    var out := Layout(model, size, level, data);
    var pL := |data| + 3;
    assert out[28] as int + 256 * (out[29] as int) == pL;
    var n := |data|;
    assert out == SelectModel(model) + SetSize(size) + SetLevel(level) + StoreData(data) + PrintSymbol;
    assert out[..7] == Prefix + [0x04, 0x00, 0x31, 0x41];
    assert out[9..16] == Prefix + [0x03, 0x00, 0x31, 0x43];
    assert out[17..24] == Prefix + [0x03, 0x00, 0x31, 0x45];
    assert out[30..33] == [0x31, 0x50, 0x30];
    assert out[33 + n..] == PrintSymbol;
  }

  /** The settings commands of a decodable sequence, read back. */
  lemma DecodedSettings(out: seq<Byte>)
    requires Decode(out).Some?
    ensures var c := Decode(out).value;
            && out[..9] == SelectModel(c.model)
            && out[9..17] == SetSize(c.size)
            && out[17..25] == SetLevel(c.level)
  {
    var c := Decode(out).value;
    assert out[..9] == out[..7] + [out[7], out[8]];
    assert out[9..17] == out[9..16] + [out[16]];
    assert out[17..25] == out[17..24] + [out[24]];
  }

  /** The length field of a decodable sequence is the data length plus 3,
      split into its low and high byte. */
  lemma DecodedLengthField(out: seq<Byte>)
    requires Decode(out).Some?
    ensures var n := |Decode(out).value.data|;
            |out| == 41 + n && out[28] == (n + 3) % 256 && out[29] == ToByte((n + 3) / 256)
  {
    var n := |Decode(out).value.data|;
    assert out[28] as int + 256 * (out[29] as int) == n + 3;
  }

  /** The store and print commands of a decodable sequence, read back. */
  lemma DecodedStore(out: seq<Byte>)
    requires Decode(out).Some?
    ensures var c := Decode(out).value;
            var n := |c.data|;
            |out| == 41 + n && out[25..33 + n] == StoreData(c.data) && out[33 + n..] == PrintSymbol
  {
    var c := Decode(out).value;
    var n := |c.data|;
    DecodedLengthField(out);
    assert out[25..33 + n] == out[25..28] + [out[28], out[29]] + out[30..33] + out[33..33 + n];
  }

  /** Whatever decodes is exactly the layout of what it decodes to: the
      decoder accepts nothing else. */
  lemma LayoutOfDecoded(out: seq<Byte>)
    requires Decode(out).Some?
    ensures var c := Decode(out).value;
            Layout(c.model, c.size, c.level, c.data) == out
  {
    var c := Decode(out).value;
    var n := |c.data|;
    DecodedSettings(out);
    DecodedStore(out);
    assert out == out[..9] + out[9..17] + out[17..25] + out[25..33 + n] + out[33 + n..];
  }

  /** The round trip through `generate`: the output of a successful call
      decodes to the defaulted settings and the original data. */
  lemma GenerateDecodes(data: seq<Byte>, options: QrOptions)
    requires |data| + 3 < 0x1_0000
    requires Generate(data, options).Success?
    ensures Decode(Generate(data, options).value)
            == Some(QrCommands(ToByte(EffectiveModel(options)), EffectiveSize(options), ToByte(EffectiveLevel(options)), data))
  {
    DecodeLayout(EffectiveModel(options), EffectiveSize(options), EffectiveLevel(options), data);
  }

  /** With no options the settings are Model 2, size 3 and level M. */
  lemma DefaultSettings(data: seq<Byte>)
    ensures Generate(data, NoOptions).Success?
    ensures var out := Generate(data, NoOptions).value;
            out[7] == Model2 && out[16] == DefaultSize && out[24] == LevelM
  {
  }

  /** Because `L` is 0 and 0 is falsy, asking for level L yields level M, and
      asking for size 0 yields the default size instead of an error. */
  lemma FalsyZeroSettings(data: seq<Byte>, model: Option<int>)
    ensures var options := QrOptions(model, Some(0), Some(LevelL));
            Generate(data, options).Success?
            && Generate(data, options).value[24] == LevelM
            && Generate(data, options).value[16] == DefaultSize
  {
  }
}
