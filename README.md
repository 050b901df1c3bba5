# dnscat2-core: the DNS codec and the record builders

This project models the core of dnscat2-core, the library that tunnels data
through DNS. The core has two halves.

**The DNS codec** (RFC 1035, sections 3.1, 4.1.2 and 4.1.4):
- The `Packer` is a growing message buffer.
  - `pack` appends big-endian 8-, 16- and 32-bit fields.
  - `pack_name` appends a domain name as length-prefixed labels and a zero byte.
  - `pack_name` also keeps a table from name suffixes already written to their offsets. A later name ending in a known suffix is written as its new labels and then a two-byte compression pointer.
  - `get` returns the buffer.
  - The class-level `Packer.pack_name` packs one name on its own.
- The `Unpacker` is an immutable message with a read cursor.
  - `unpack` and `unpack_one` read fields.
  - `unpack_name` reads a name label by label and follows pointers. It refuses a message that ends too early, and a pointer that returns to the start or to a target already followed.
- A `Question` is a name, a 16-bit type and a 16-bit class.
  - It is packed by a packer, parsed by an unpacker, and rendered as `name [TYPE CLASS]`.

**The builders** that turn tunnel data into DNS records:
- The hex and base32 encoders (RFC 4648, sections 8 and 6). They are lower-case, and base32 has no padding.
- The CNAME and MX builders share the name synthesis: tag, encoded data cut into subdomain labels, then domain.
- The AAAA builder spreads a length-prefixed stream over IPv6 addresses (RFC 3596, section 2.2).
- The TXT builder puts the encoded data into one character string.
- Each builder has a `max_length`. More data than that raises a DnscatException with the message `too much data`.

The repository's library code is not part of this model. Its behaviour is
fixed by the test files cited below. Those tests give exact bytes, names,
lengths and errors, and every one of them is proved here as a lemma or as the
`ensures` clause of a method.

Layout:
- `wrappers.dfy`: errors and result types.
- `digits.dfy`: big-endian digits.
- `seqs.dfy`: chunking and flattening.
- `names.dfy`: name text rules.
- `wire.dfy`: fields, labels, pointers, and the name decoder `Decode`.
- `packer.dfy`: the compression specification and the `Packer` class.
- `unpacker.dfy`: the `Unpacker` class.
- `question.dfy`, `encoders.dfy`, `name_helper.dfy`, `aaaa.dfy` and `txt.dfy`: the remaining components.
- `*_cases.dfy`: the concrete cases of each test file.

## Model

| member | source | states |
|---|---|---|
| Packer.Packer.Pack | test/dnscat2/dns/packer_test.rb:8-12 | appends every field big-endian at its width, in order, and leaves the table alone; if any value does not fit its width, it raises a FormatException and writes nothing |
| Packer.Packer.Get | test/dnscat2/dns/packer_test.rb:8-12 | returns the whole buffer |
| Packer.Packer.PackName | test/dnscat2/dns/packer_test.rb:14-33 | succeeds exactly when the name is accepted; a refused name raises the name's FormatException and leaves buffer and table unchanged; an accepted name appends NameBytes and sets the table to NameTable, and the buffer then decodes from the old end back to the name, up to case, ending at the new end |
| Packer.Packer.WriteLabels | test/dnscat2/dns/packer_test.rb:35-81 | the label loop: writes labels until the rest of the name is a known suffix and records each new suffix; the result equals the specification NameBytes/NameTable, and the compression table stays truthful (every entry encodes its key) |
| Packer.Packer.constructor | test/dnscat2/dns/packer_test.rb:9 | a new packer has an empty buffer and an empty table |
| Packer.FirstKnown | test/dnscat2/dns/packer_test.rb:57-81 | the index of the longest suffix of the name that the table knows: no shorter index is known, and the one returned is (or is past the end) |
| Packer.PackSound | test/dnscat2/dns/packer_test.rb:35-81 | after any name is written with any truthful table, the new table is still truthful and the name decodes back, up to case, from where it was written to the end of the buffer |
| Packer.RepeatIsPointer | test/dnscat2/dns/packer_test.rb:35-41 | a name written again is exactly a two-byte pointer to its first occurrence |
| Packer.SuffixIsPointer | test/dnscat2/dns/packer_test.rb:43-48 | every suffix of a name written in full is recorded, so writing that suffix later is a pointer to where it starts |
| Packer.LabelThenPointer | test/dnscat2/dns/packer_test.rb:50-54 | a name one label longer than a known name is that label, then a pointer to the known name |
| Packer.KnownIsPointer | test/dnscat2/dns/packer_test.rb:57-68 | a known name is a pointer to the offset the table gives, and the table does not change |
| Packer.NameTableEntries | test/dnscat2/dns/packer_test.rb:57-81 | writing a name keeps every old entry and adds only suffixes of that name, each at the offset where it was written, including for names that end in a pointer |
| Packer.FreshWritesInFull | test/dnscat2/dns/packer_test.rb:14-18 | with an empty table, a name is written in full: its labels and a zero byte |
| Packer.EncodeLabelsDecode | test/dnscat2/dns/unpacker_test.rb:60-85 | labels written in full decode to exactly those labels wherever they sit, and reading stops after the zero byte |
| Packer.PackNameBytes | test/dnscat2/dns/unpacker_test.rb:180-231 | the class-level pack_name succeeds exactly when the name is accepted and otherwise raises that name's FormatException |
| Packer.PackNameRoundTrip | test/dnscat2/dns/unpacker_test.rb:180-193 | decoding the class-level bytes gives exactly the name's labels, ends after the last byte, and their join is the name without its trailing dot |
| Packer.PackNameLength | test/dnscat2/dns/unpacker_test.rb:216-230 | every accepted name packs into at most 255 bytes |
| Names.ParseName | test/dnscat2/dns/packer_test.rb:83-120 | a name is accepted exactly when it has at most 253 characters and every label, after one trailing dot is dropped, is 1 to 63 characters without NUL or backslash; the labels' join is the name without its dot; a refusal is a FormatException |
| Names.CheckLabels | test/dnscat2/dns/packer_test.rb:83-102 | passes exactly when every label is valid; otherwise a FormatException |
| Names.ParseJoin | test/dnscat2/dns/packer_test.rb:29-33 | valid labels joined with dots parse back to the same labels |
| Names.ParseRoot | test/dnscat2/dns/unpacker_test.rb:190-193 | the empty name and a lone dot are the root, with no labels |
| PackerCases.PackFieldsCase | test/dnscat2/dns/packer_test.rb:8-12 | `pack('NnC', 0x41424344, 0x4546, 0x47)` gives `ABCDEFG` |
| PackerCases.SingleLabelCase | test/dnscat2/dns/packer_test.rb:14-18 | `test` gives `\x04test\x00` |
| PackerCases.FieldsThenNameCase | test/dnscat2/dns/packer_test.rb:20-27 | three fields, then `test.com` in full after them |
| PackerCases.TrailingDotCase | test/dnscat2/dns/packer_test.rb:29-33 | `test.com.` gives the bytes of `test.com` |
| PackerCases.PointerCase | test/dnscat2/dns/packer_test.rb:35-41 | `test.com` twice after four bytes: the second is `\xc0\x04` |
| PackerCases.SuffixPointerCase | test/dnscat2/dns/packer_test.rb:43-48 | `www.test.com` then `test.com`: the second is `\xc0\x08` |
| PackerCases.LabelPointerCase | test/dnscat2/dns/packer_test.rb:50-54 | `test.com` then `www.test.com`: the second is `\x03www\xc0\x04` |
| PackerCases.DoublePointerCase | test/dnscat2/dns/packer_test.rb:57-68 | the four names give exactly the expected bytes |
| PackerCases.ReverseDoublePointerCase | test/dnscat2/dns/packer_test.rb:70-80 | the four names in the other order give exactly the expected bytes, `\xc0\x10` pointing into the second name |
| PackerCases.EmptyLabelCase | test/dnscat2/dns/packer_test.rb:83-88 | `test..com` raises a FormatException for its empty label |
| PackerCases.IllegalCharacterCase | test/dnscat2/dns/packer_test.rb:89-91 | `te\x00st.com` in single quotes raises a FormatException for its backslash |
| PackerCases.LabelLengthCases | test/dnscat2/dns/packer_test.rb:94-102 | a 63-character label is accepted and a 64-character one raises |
| PackerCases.NameLengthCases | test/dnscat2/dns/packer_test.rb:104-120 | the 253-character name is accepted and with one more character it raises |
| PackerCases.ClassLevelCases | test/dnscat2/dns/unpacker_test.rb:181-194 | class-level `test`, `test.com` and `''` give `\x04test\x00`, `\x04test\x03com\x00` and `\x00` |
| PackerCases.ClassLevelRefusals | test/dnscat2/dns/unpacker_test.rb:196-214 | class-level `test..com`, `te\x00st.com` and a 64-character label raise; 63 characters is accepted |
| PackerCases.ClassLevelNameLengthCases | test/dnscat2/dns/unpacker_test.rb:216-230 | the 253-character name ending in a dot is accepted and its 254-character extension raises |
| Wire.ReadFieldsSucceeds | test/dnscat2/dns/unpacker_test.rb:40-58 | reading fields succeeds exactly when the buffer holds all of them, ends right after them, and otherwise fails as truncated |
| Wire.ReadFieldsBytes | test/dnscat2/dns/unpacker_test.rb:8-17 | reading packed fields back, wherever they sit, gives their values and ends after them |
| Wire.ReadFieldsFit | test/dnscat2/dns/unpacker_test.rb:8-17 | every value read fits the width it was read with |
| Wire.PointerBytes | test/dnscat2/dns/packer_test.rb:35-41 | a pointer is two bytes, the first at least 0xC0, and it refers back to its offset |
| Wire.Decode | test/dnscat2/dns/unpacker_test.rb:60-177 | reading a name succeeds with the position after its first terminator or pointer, strictly after the start and within the buffer; every failure is a FormatException |
| Packer.TruncatedFrom | test/dnscat2/dns/unpacker_test.rb:115-158 | every proper prefix of what pack_name writes from a label on, after any bytes, fails to decode as Truncated: the cut falls inside a label, before the zero byte, or between the two bytes of a pointer |
| Packer.NameBytesTruncated | test/dnscat2/dns/unpacker_test.rb:115-158 | whatever the table, so whether the name ends in a zero byte or in a pointer, every proper prefix of a packed name fails to decode as Truncated |
| Packer.PrefixTruncatedAt | test/dnscat2/dns/unpacker_test.rb:115-128 | every proper prefix of a name written in full, after any bytes, fails to decode as Truncated |
| Packer.ForwardPointerTruncated | test/dnscat2/dns/unpacker_test.rb:130-157 | a pointer forward to a name written in full, with any bytes between: every cut from the pointer's first byte to the name's zero byte fails to decode as Truncated |
| Wire.NameAtDecodes | test/dnscat2/dns/unpacker_test.rb:87-113 | a name encoded with pointers that only go backwards decodes to labels with its key |
| Unpacker.Unpacker.Unpack | test/dnscat2/dns/unpacker_test.rb:8-17 | the values read equal ReadFields from the old cursor, and the cursor moves past them; on failure the error is the same and the cursor stays |
| Unpacker.Unpacker.UnpackOne | test/dnscat2/dns/unpacker_test.rb:19-38 | a format that is not exactly one field raises a FormatException without moving; otherwise the one value ReadField gives, and the cursor moves past it |
| Unpacker.Unpacker.UnpackName | test/dnscat2/dns/unpacker_test.rb:60-177 | the loop over length bytes and pointers returns the dotted join of Decode's labels and puts the cursor where Decode ends, strictly forward; on failure the error is Decode's and the cursor stays |
| Unpacker.Unpacker.constructor | test/dnscat2/dns/unpacker_test.rb:9 | the cursor starts at 0 over the given message |
| Unpacker.UnpackFieldsCases | test/dnscat2/dns/unpacker_test.rb:8-58 | `NnC` of `AAAABBC` is 0x41414141, 0x4242, 0x43; the three truncated reads fail |
| Unpacker.MultipleUnpackCase | test/dnscat2/dns/unpacker_test.rb:19-38 | three unpack_one calls read the three fields in turn; a two-field format raises |
| UnpackerCases.SingleLabelCase | test/dnscat2/dns/unpacker_test.rb:60-67 | after seven bytes of fields, the name is `test` |
| UnpackerCases.TwoLabelCase | test/dnscat2/dns/unpacker_test.rb:69-76 | the name is `test.testtest` |
| UnpackerCases.EmptyNameCase | test/dnscat2/dns/unpacker_test.rb:78-85 | a lone zero byte is the name `''` |
| UnpackerCases.BackReferenceCase | test/dnscat2/dns/unpacker_test.rb:87-95 | a label and a pointer back to offset 0 give `name.A` |
| UnpackerCases.ForwardReferenceCase | test/dnscat2/dns/unpacker_test.rb:97-104 | a pointer forward gives `AA.name` |
| UnpackerCases.PointerOnlyCase | test/dnscat2/dns/unpacker_test.rb:106-113 | a name that is only a pointer gives `name` |
| UnpackerCases.TruncatedCases | test/dnscat2/dns/unpacker_test.rb:115-158 | all thirteen truncated messages raise FormatException |
| UnpackerCases.LargestPointerCase | test/dnscat2/dns/unpacker_test.rb:160-166 | a pointer to offset 0x3FFF gives `name` |
| UnpackerCases.LoopCase | test/dnscat2/dns/unpacker_test.rb:168-177 | a pointer back to where the name started raises FormatException |
| Question.TypeClassReadsBack | test/dnscat2/dns/question_test.rb:19-21 | after the name come two 16-bit fields, and their four bytes read back as `nn` to the type, then the class |
| Question.QuestionBytes | test/dnscat2/dns/question_test.rb:19-21 | packing succeeds exactly when the name is accepted, and otherwise raises the name's error |
| Question.ParseQuestion | test/dnscat2/dns/question_test.rb:24-28 | a parsed question ends strictly after its start and within the message; every failure is a FormatException |
| Question.QuestionRoundTrip | test/dnscat2/dns/question_test.rb:18-28 | parsing a packed question gives back its name (without a trailing dot), type and class, and stops after the last byte |
| Question.Pack | test/dnscat2/dns/question_test.rb:19-21 | writes the name as pack_name does, then the type and the class; a refused name writes nothing |
| Question.Parse | test/dnscat2/dns/question_test.rb:24-28 | reads exactly what ParseQuestion specifies and leaves the cursor after the question |
| Question.Unknown | test/dnscat2/dns/question_test.rb:31-34 | an unknown code renders as nine characters: `<0x`, four hex digits, then `?>` |
| Question.UnknownDigits | test/dnscat2/dns/question_test.rb:31-34 | the four characters between `<0x` and `?>` read back as hex digits to the code |
| Question.UnknownInjective | test/dnscat2/dns/question_test.rb:31-34 | two codes render alike only if they are equal |
| Question.TypeNameInjective | test/dnscat2/dns/question_test.rb:16 | two types render alike only if they are equal |
| Question.ClassNameInjective | test/dnscat2/dns/question_test.rb:16 | two classes render alike only if they are equal |
| Question.TestComString | test/dnscat2/dns/question_test.rb:16 | `test.com`, A, IN renders `test.com [A IN]` |
| Question.UnknownString | test/dnscat2/dns/question_test.rb:31-34 | type 0x1234 and class 0x4321 render `test.com [<0x1234?> <0x4321?>]` |
| QuestionCases.TypeClassBytes | test/dnscat2/dns/question_test.rb:21 | type A and class IN are `\x00\x01\x00\x01` |
| QuestionCases.QuestionCase | test/dnscat2/dns/question_test.rb:8-29 | the packer holds exactly `\x04test\x03com\x00\x00\x01\x00\x01`, and parsing it gives `test.com`, A, IN |
| Encoders.DecodeEncode | test/dnscat2/tunnel_drivers/dns/builders/cname_test.rb:16-79 | decoding the hex or base32 encoding of any data gives the data back |
| Encoders.DecodeEncodeGroup | test/dnscat2/tunnel_drivers/dns/builders/cname_test.rb:68-79 | the same for one group of bytes, the last and shorter base32 group included |
| Encoders.EncodeLength | test/dnscat2/tunnel_drivers/dns/txt_encoder_test.rb:18-22 | n bytes encode to their 8n bits rounded up to whole characters: 2n for hex, ceil(8n/5) for base32 |
| Encoders.EncodeChars | test/dnscat2/tunnel_drivers/dns/builders/cname_test.rb:68-79 | every encoded character is a lower-case letter or a digit, allowed in a label |
| Encoders.CharDigitInverse | test/dnscat2/tunnel_drivers/dns/builders/cname_test.rb:68-79 | each digit's character reads back as that digit, and a character reads as a digit exactly when it is that digit's character, up to case |
| Encoders.MaxBytes | test/dnscat2/tunnel_drivers/dns/txt_encoder_test.rb:18-22 | the largest data whose encoding fits a room: it fits and one byte more does not |
| Encoders.FitsIff | test/dnscat2/tunnel_drivers/dns/txt_encoder_test.rb:30-41 | n bytes fit c characters exactly when their bits fit |
| EncoderCases.HexAAAA | test/dnscat2/tunnel_drivers/dns/builders/cname_test.rb:24-26 | hex of `AAAA` is `41414141` |
| EncoderCases.Base32AAAA | test/dnscat2/tunnel_drivers/dns/builders/cname_test.rb:76-78 | base32 of `AAAA` is `ifaucqi` |
| EncoderCases.Base32AaAa | test/dnscat2/tunnel_drivers/dns/txt_encoder_test.rb:43-48 | base32 of `AaAaAaAa` is `ifqucykbmfawc` |
| EncoderCases.HexOfAs | test/dnscat2/tunnel_drivers/dns/txt_encoder_test.rb:30-33 | hex of n bytes `A` is `41` n times |
| NameHelper.Build | test/dnscat2/tunnel_drivers/dns/mx_encoder_test.rb:15-78 | succeeds exactly when the name's wire form fits 255 bytes, giving tag, subdomains and domain joined with dots, at most 253 characters; otherwise a DnscatException `too much data` |
| NameHelper.CapacityIff | test/dnscat2/tunnel_drivers/dns/builders/cname_test.rb:81-131 | n bytes fit exactly when n is at most max_length |
| NameHelper.MaxLengthIsLargest | test/dnscat2/tunnel_drivers/dns/mx_encoder_test.rb:80-130 | max_length bytes fit and max_length + 1 bytes do not |
| NameHelper.NameLength | test/dnscat2/tunnel_drivers/dns/builders/cname_test.rb:81-92 | the name text is two characters shorter than its wire form (length bytes and terminator against dots), the empty name aside |
| NameHelper.BuiltNameParses | test/dnscat2/tunnel_drivers/dns/builders/cname_test.rb:16-79 | with a valid tag and domain, a built name is accepted by pack_name, with tag, subdomains and domain as its labels |
| NameHelper.BuildReassemble | test/dnscat2/tunnel_drivers/dns/builders/cname_test.rb:16-79 | dropping tag and domain from a built name and decoding the rest gives the data back |
| BuilderCases.PlainCase | test/dnscat2/tunnel_drivers/dns/builders/cname_test.rb:16-27 | `AAAA` gives `41414141` |
| BuilderCases.TagCase | test/dnscat2/tunnel_drivers/dns/builders/cname_test.rb:29-40 | with tag `aaa`: `aaa.41414141` |
| BuilderCases.DomainCase | test/dnscat2/tunnel_drivers/dns/builders/cname_test.rb:42-53 | with domain `aaa`: `41414141.aaa` |
| BuilderCases.SubdomainLengthCase | test/dnscat2/tunnel_drivers/dns/builders/cname_test.rb:55-66 | subdomains of 3: `414.141.41` |
| BuilderCases.Base32Case | test/dnscat2/tunnel_drivers/dns/builders/cname_test.rb:68-79 | base32: `ifaucqi` |
| BuilderCases.CapacityCases | test/dnscat2/tunnel_drivers/dns/builders/cname_test.rb:81-131 | for both configurations of the tests, max_length bytes build and one more raises `too much data` |
| AAAA.Build | test/dnscat2/tunnel_drivers/dns/builders/aaaa_test.rb:24-63 | succeeds exactly when the data is at most max_length (224) bytes, giving (n + 15) / 15 addresses, between 1 and 15, each 16 bytes starting with its index; otherwise a DnscatException `too much data` |
| AAAA.AddressesCarry | test/dnscat2/tunnel_drivers/dns/builders/aaaa_test.rb:24-29 | when every slice but the last is whole, each address is 16 bytes led by its index, and the addresses without their index bytes are the slices one after the other, then the 0xFF filler of the last |
| AAAA.BuildReassemble | test/dnscat2/tunnel_drivers/dns/builders/aaaa_test.rb:24-48 | dropping the index bytes and reading as many bytes as the length byte says gives the data back |
| AAAA.RecordCount | test/dnscat2/tunnel_drivers/dns/builders/aaaa_test.rb:50-57 | up to 224 bytes make one to fifteen addresses |
| AAAA.OneAddress | test/dnscat2/tunnel_drivers/dns/builders/aaaa_test.rb:38-48 | up to 14 bytes are one address: 0, the length, the data, 0xFF filler |
| AAAA.TwoAddresses | test/dnscat2/tunnel_drivers/dns/builders/aaaa_test.rb:24-36 | 15 to 29 bytes are two addresses: 0, the length and 14 bytes; then 1, the rest and filler |
| AAAA.MaxAddresses | test/dnscat2/tunnel_drivers/dns/builders/aaaa_test.rb:50-57 | 224 `A`s give 15 addresses: `00 e0` and 14 `A`s, then each index and 15 `A`s |
| AAAA.OverMaxRefused | test/dnscat2/tunnel_drivers/dns/builders/aaaa_test.rb:59-63 | 225 bytes raise `too much data` |
| BuilderCases.AlphabetCase | test/dnscat2/tunnel_drivers/dns/builders/aaaa_test.rb:24-29 | the alphabet gives `1a:4142:…:4d4e` and `14f:5051:…:5aff:ffff` |
| BuilderCases.NulCase | test/dnscat2/tunnel_drivers/dns/builders/aaaa_test.rb:31-36 | NUL data bytes stay zero and only the filler is 0xFF: `14f::ff:ffff` |
| BuilderCases.OneByteCase | test/dnscat2/tunnel_drivers/dns/builders/aaaa_test.rb:38-42 | `A` gives `1:41ff:ffff:…` |
| BuilderCases.OneAddressCase | test/dnscat2/tunnel_drivers/dns/builders/aaaa_test.rb:44-48 | 14 `A`s fill one address without filler |
| TXT.Build | test/dnscat2/tunnel_drivers/dns/txt_encoder_test.rb:24-41 | succeeds exactly when the data is at most max_length, giving one record of at most 250 characters that decodes to the data; otherwise a DnscatException `too much data` |
| TXT.HexMaxLength | test/dnscat2/tunnel_drivers/dns/txt_encoder_test.rb:18-22 | with hex, max_length is 125 whatever the tag and domain |
| TXT.EmptyData | test/dnscat2/tunnel_drivers/dns/txt_encoder_test.rb:24-28 | no data still gives one record, with empty data |
| BuilderCases.TxtCases | test/dnscat2/tunnel_drivers/dns/txt_encoder_test.rb:18-41 | max_length 125; `''` gives `''`; 125 `A`s give `41` 125 times; 126 raise `too much data` |
| BuilderCases.TxtBase32Case | test/dnscat2/tunnel_drivers/dns/txt_encoder_test.rb:43-48 | base32 `AaAaAaAa` gives the one record `ifqucykbmfawc` |

## Left out

- test/test_helper.rb: coverage setup, logging and the fake socket are test plumbing with no logic of the codec.
- The pack/unpack format-string language: a format is a sequence of 8-, 16- and 32-bit widths (`C`, `n`, `N`).
- The library code under lib/ is not part of this model; its behaviour is taken from the tests and from RFC 1035, 3596 and 4648.
- Packer.Packer.PackName: a name is matched against the compression table case-insensitively, and offsets at or above 0x4000 are not recorded. No test exercises either rule; both are assumptions.
- Packer.Packer.PackName: the name read back is equal to the name packed only up to case. The class-level round trip (Packer.PackNameRoundTrip) is exact.
- Names.ParseName: the length rule is on the text, at most 253 characters with a trailing dot counted. The packer tests accept a 253-character name without a dot. The class-level tests accept a 253-character name with a dot and refuse 254 characters, although those 254 characters would encode in 255 bytes. A limit of 255 encoded bytes would not agree with both tests.
- Names.ParseName: a character is illegal when it is NUL, a backslash, or not a single byte. The tests' `'te\x00st.com'` is single-quoted, so the character refused is the backslash. The rest of the illegal set is an assumption.
- Wire.Decode: refusal of a truncated name is proved for every name the packer writes and for a forward pointer into a name written in full; other truncated shapes, such as a pointer back into a name that was itself cut, are covered only by the test messages.
- Wire.Decode: a length byte from 0x40 to 0xBF is read as a label length, not refused. No test shows such a byte.
- Question.Parse: a failed parse can leave the cursor after the name when the type or class is truncated. The source's behaviour there is not shown.
- Question.TypeName and Question.ClassName: only A and IN appear in the tests. The other mnemonics (NS, CNAME, SOA, MX, TXT, AAAA, ANY; CH, HS) and the lower-case hex digits of unknown codes are assumptions.
- Question.answer is a TODO in the tests and is not modelled.
- AAAA: the records are modelled as their 16 address bytes. The IPv6 text form the tests compare against is read off as bytes. The record names, tag and domain of the AAAA records are not modelled.
- AAAA: the empty-data case is commented out in the tests and left unspecified. The model gives one address holding the length byte 0.
- TXT.Build: the room of 250 encoded characters per record is chosen to give the tested max_length of 125 for hex. The constant itself is not visible, and the tag and domain do not reduce it.
- NameHelper.MaxLength: only the boundary is tested (max_length accepted, one more refused). The model derives a closed form from the 255-byte wire budget and proves that boundary for every configuration. The library's own formula may differ for configurations the tests do not use.
- MX preference values and the other fields of CNAME and MX records are not modelled; only the names are.
- DnscatException carries only its message `too much data`.
