/** The TXT encoder: tunnel data carried as one encoded character string in
    one TXT record. The tag and the domain name the record, not its data. */
module TXT {
  import opened Wrappers
  import opened Wire
  import opened Encoders

  datatype Config = Config(tag: Option<string>, domain: Option<string>, encoding: Encoding)

  /** The characters of encoded data one record carries. */
  const Room: nat := 250

  /** `max_length`: the most data whose encoding fits the room. */
  function MaxLength(cfg: Config): nat
  {
    MaxBytes(cfg.encoding, Room)
  }

  /** `encode`: one record whose data is the encoded data, or a
      DnscatException when there is more data than `max_length`. */
  function Build(cfg: Config, data: seq<byte>): (r: Result<seq<string>>)
    ensures r.Success? <==> |data| <= MaxLength(cfg)
    ensures r.Failure? ==> r.error == DnscatException(TooMuchData)
    ensures r.Success? ==> |r.value| == 1 && |r.value[0]| <= Room
    ensures r.Success? ==> Encoders.Decode(cfg.encoding, r.value[0]) == Some(data)
  {
    if |data| > MaxLength(cfg) then Failure(DnscatException(TooMuchData))
    else
      EncodeLength(cfg.encoding, data);
      FitsIff(cfg.encoding, |data|, Room);
      FitsIff(cfg.encoding, MaxLength(cfg), Room);
      DecodeEncode(cfg.encoding, data);
      Success([Encode(cfg.encoding, data)])
  }

  /** With the hex encoder, whatever the tag and the domain, the record
      carries 125 bytes. */
  lemma HexMaxLength(cfg: Config)
    requires cfg.encoding == Hex
    ensures MaxLength(cfg) == 125
  {
  }

  /** No data still makes one record, with empty data. */
  lemma EmptyData(cfg: Config)
    ensures Build(cfg, []) == Success([""])
  {
  }
}
