# comix-neo, modelled in Dafny

comix-neo downloads the comic books a user bought on Amazon's comiXology
store. It logs in to Amazon with a device registration, signs and sends its
catalog requests, turns the store's download records into a book
description, derives the passphrase of each encrypted page archive, and
exports the decrypted pages as a folder of images, a CBZ file or an EPUB
file. This project models the core of that program and proves properties of
the model.

| file | module | models |
|---|---|---|
| `wrappers.dfy` | `Wrappers` | `Option` and `Result` |
| `bytes.dfy` | `Bytes` | the Python built-ins the core relies on: UTF-8 `encode()`, `str(int)`, `int(str)`, `{n:0Wd}`, `hexlify`, ASCII `lower()`/`upper()`, `strip()` |
| `base64.dfy` | `Base64` | `b64encode` (section 4 of RFC 4648) and a reference decoder |
| `json.dfy` | `Json` | decoded JSON values and the dictionary lookups made on them |
| `key.dfy` | `ComixKey` | `comix/key.py`: the per-page passphrase |
| `models.dfy` | `Models` | `comix/models.py`: device, account, issue and book records, release names |
| `amz_codec.dfy` | `AmzCodec` | the byte and string logic of `comix/amz.py`: PKCS #7, device id and PID, password masking, the FRC cookie, the signed string and headers |
| `amz.dfy` | `Amz` | the `AmazonAuth` session of `comix/amz.py` as a class: authenticate, register the device, sign, refresh, log in, hand out the token |
| `exporter.dfy` | `Exporter` | `comix/exporter.py`: format choice, image selection and renaming, the page counter, the CBZ/EPUB archive, existence checks, the clean-up |
| `client.dfy` | `Client` | `comix/client.py`: the catalog client, its forms and the conversion of a download record into `ComicData` |

How the outside world appears in the model:

- The network is a queue. A request is appended to a list of sent
  requests and answered by the head of a list of replies; an empty list of
  replies is a network failure.
- The files the code reads and writes are fields: the token file and the
  device-id file of the session, and the output directory, its parent
  directory and the archive of an exporter.
- Cryptographic primitives, `gzip`, `json.dumps` and protobuf decoding are
  function-valued parameters. Only the lengths of their results are fixed.
- The clock and random draws (UUID, IV) are inputs.
- Python exceptions are the error side of a `Result`.

Two behaviours of the code that its documentation does not describe, both
kept by the model:

- A stored device id is kept only when its stripped length is 16
  (`comix/amz.py:81`), while the ids the code generates are 32 hex
  characters, so a generated id is replaced in every later session
  (`AmzCodec.GeneratedIdNeverKept`).
- The EPUB exporter writes `{release}.cbz` (`comix/exporter.py:165`,
  `comix/exporter.py:197`) but looks for `{release}.epub`
  (`comix/exporter.py:155`).

## Model

| member | source | states |
|---|---|---|
| Bytes.Reversed | comix/key.py:68 | `s[::-1]` has the same length and position k holds `s[n-1-k]` |
| Bytes.EncodeChar | comix/key.py:66-74 | a character encodes to 1 to 4 bytes, and to its own code point exactly when it is ASCII |
| Bytes.Utf8Concat | comix/key.py:66-74 | encoding a concatenation is concatenating the encodings |
| Bytes.Utf8Ascii | comix/key.py:67 | ASCII text encodes to one byte per character, its code point |
| Bytes.IntToDecimal | comix/key.py:67 | `str(n)` is non-empty, and one digit for 0 to 9 |
| Bytes.ParseInt | comix/models.py:62 | `int(s)` on digits is their value; the empty string is a `ValueError` |
| Bytes.IntToDecimalRoundTrip | comix/models.py:103 | `int(str(n)) == n` |
| Bytes.IntToDecimalInjective | comix/client.py:40 | distinct integers have distinct numerals |
| Bytes.FormatZeroPadded | comix/models.py:75 | `{n:0Wd}` has the padded length and is all digits for n >= 0 |
| Bytes.FormatZeroPaddedRoundTrip | comix/models.py:75-77 | a padded numeral reads back as the number |
| Bytes.Hexlify | comix/key.py:36 | two lower-case hex digits per byte |
| Bytes.HexlifyRoundTrip | comix/key.py:36 | unhexlify undoes hexlify |
| Bytes.Lower | comix/exporter.py:36 | `lower()` maps each character, keeping the length |
| Bytes.Upper | comix/amz.py:92 | `upper()` maps each character, keeping the length |
| Bytes.Strip | comix/amz.py:80 | `strip()` is the slice of the text between its leading and trailing whitespace: everything before and after it is whitespace, neither of its ends is, and stripped text is kept as is |
| Base64.Encode | comix/key.py:84 | the text has length `4*ceil(n/3)` and uses only the alphabet and `=` |
| Base64.DecodeEncode | comix/amz.py:164 | decoding the encoding gives the bytes back |
| Base64.EncodeInjective | comix/amz.py:164 | distinct byte strings have distinct encodings |
| Json.IntOf | comix/models.py:188 | `int(v)` of an integer is itself, of a boolean 1 or 0, of a string the value it parses to (a `ValueError` when it does not parse), and of null, a list or a dict a `TypeError` |
| Json.OptStrRoundTrip | comix/models.py:216 | a saved optional string (the pool) reads back unchanged |
| ComixKey.Hash | comix/key.py:35-36 | 32 lower-case hex characters that read back as the MD5 digest |
| ComixKey.LowerKeepsHex | comix/key.py:36 | `.lower()` leaves lower-case hex unchanged |
| ComixKey.SwapEnds | comix/key.py:38-46 | the net effect of `reverse`: first and last exchanged, interior kept, a permutation |
| ComixKey.AllPassesSwapEnds | comix/key.py:41-45 | after its n-1 passes the loop has swapped only the ends |
| ComixKey.Reverse | comix/key.py:38-46 | the loop leaves `SwapEnds` of the old buffer in place and returns the same array |
| ComixKey.SwapEndsFixesPalindrome | comix/key.py:82 | `reverse` leaves a palindrome unchanged |
| ComixKey.SwapEndsIsReversalIff | comix/key.py:38-46 | `reverse` reverses exactly when the interior is a palindrome, so always for n <= 3 |
| ComixKey.ReversalHasPalindromeInterior | comix/key.py:38-46 | a buffer `reverse` truly reverses has a palindromic interior |
| ComixKey.PalindromeInteriorIsReversal | comix/key.py:38-46 | a palindromic interior makes `reverse` a true reversal |
| ComixKey.ReverseIsNotReversal | comix/key.py:38-46 | on `[0,1,2,3]` `reverse` gives `[3,1,2,0]`, not the reversal |
| ComixKey.Expand | comix/key.py:49-57 | a fresh buffer holding `a` followed by its reversal |
| ComixKey.MirroredIsPalindrome | comix/key.py:49-57 | the expanded buffer is a palindrome |
| ComixKey.XorAll | comix/key.py:78-80 | every byte XORed with the same value, length kept |
| ComixKey.XorAllKeepsPalindrome | comix/key.py:78-80 | XOR with one byte keeps a palindrome a palindrome |
| ComixKey.XorInPlace | comix/key.py:78-80 | the in-place loop leaves `XorAll` of the old buffer |
| ComixKey.DigitPiece | comix/key.py:67-73 | each `% 10` piece is exactly one digit byte |
| ComixKey.Multiplier | comix/key.py:61-65 | by `DataToHashLayout`: `int(publisher_id) + 1`, plus one for an even item id |
| ComixKey.DataToHash | comix/key.py:61-74 | by `DataToHashLayout`: the seven pieces in order |
| ComixKey.DataToHashLayout | comix/key.py:61-74 | the seven pieces of `data_to_hash` in order, with the multiplier `int(publisher_id) + 1`, plus one for an even item id |
| ComixKey.XoredMirrorUnmovedByReverse | comix/key.py:76-82 | `reverse` leaves the expanded, XORed buffer unchanged, so both hashes are of the same bytes |
| ComixKey.KeyOf | comix/key.py:84 | the result is 50 characters of Base64 text |
| ComixKey.PageKeyShape | comix/key.py:76-84 | every passphrase is 50 characters of Base64 text |
| ComixKey.CalculateKey | comix/key.py:60-84 | a non-numeric publisher id is the `ValueError`; otherwise the passphrase is `PageKey`, the two hashes being equal |
| Models.DeviceFromData | comix/models.py:113-114 | the device is read from `device_name`, `device_serial_number` and `device_type` |
| Models.DeviceFromDict | comix/models.py:117-118 | reading a device needs `name`, `serial` and `type` |
| Models.DeviceToDict | comix/models.py:120-125 | by `DeviceRoundTrip`: the saved form reads back as the device |
| Models.DeviceRoundTrip | comix/models.py:116-125 | `from_dict(to_dict(d)) == d` |
| Models.FromDict | comix/models.py:208-224 | a read account has the `expire_at` of the dictionary |
| Models.AccountToDict | comix/models.py:226-241 | by `FromDictToDict` and `ToDictInjective`: the saved form reads back as the account, and different accounts are saved differently |
| Models.FromDictToDict | comix/models.py:208-241 | `from_dict(to_dict(a)) == a` |
| Models.ToDictInjective | comix/models.py:226-241 | two accounts with the same saved form are equal |
| Models.FromData | comix/models.py:151-206 | an account read from a register response carries the session's email, password and domain |
| Models.ReadAccount | comix/models.py:176-206 | the field reads keep the session's email, password and domain, and `expire_at` is `now + int(expires_in)`, the parsed numeral when `expires_in` is a string |
| Models.FromDataComplete | comix/models.py:151-206 | a complete response yields its account, expiring `expires_in` seconds after `now` |
| Models.ReadCompleteAccount | comix/models.py:176-206 | the fields of a complete response read back as the account |
| Models.FromDataFirstMissing | comix/models.py:152-174 | the `ValueError` is the message of the first missing section, in check order |
| Models.AmazonAccount.constructor | comix/models.py:128-142 | the object holds the given record |
| Models.AmazonAccount.UpdateExpiry | comix/models.py:147-148 | `expire_at = now + expires_in` and no other field changes |
| Models.AmazonAccount.ToDict | comix/models.py:226-241 | the saved form reads back as the object's record |
| Models.AmazonAccount.IsExpired | comix/models.py:144-145 | by `ExpiryIsStrict`: expired exactly when `now > expire_at` |
| Models.ExpiryIsStrict | comix/models.py:144-145 | expired exactly when `now > expire_at`, so not yet at `expire_at` |
| Models.FromProto | comix/models.py:55-68 | empty strings become `None`, volume and issue are `int()`, and an unparsable number is the error |
| Models.FromProtoToProto | comix/models.py:55-68 | an issue read back from its message is itself, unless its series id is `""` |
| Models.RemoveForbidden | comix/models.py:72-73 | no forbidden character is left, every `:` is kept, a single character is dropped exactly when it is forbidden, and text without forbidden characters is kept as is |
| Models.RemoveForbiddenConcat | comix/models.py:72-73 | the removal works on each part of a text separately, so the kept characters stay in order |
| Models.RemoveForbiddenKeeps | comix/models.py:72-73 | every character that is not forbidden is kept as often as it occurs |
| Models.ColonToDash | comix/models.py:73 | every `:` becomes `-`, nothing else changes |
| Models.CollapseSpaceShape | comix/models.py:73 | after `re.sub(r"\s+", " ", s)` every whitespace is a plain space, no two are adjacent, the text is no longer, empty only for the empty text, and starts with whitespace exactly when the original did |
| Models.CollapseConcat | comix/models.py:73 | after a non-space character the two parts of a text collapse separately |
| Models.CollapseRun | comix/models.py:73 | a run of whitespace between non-space characters, or at an end, becomes exactly one space and both sides collapse separately |
| Models.CollapseKeepsNonSpace | comix/models.py:73 | collapsing keeps every non-space character in order |
| Models.CollapseCharacters | comix/models.py:73 | collapsing adds no character but the space |
| Models.Sanitise | comix/models.py:72-73 | the sanitised title has no forbidden character except `-`, no `:`, every whitespace is a plain space and no two are adjacent |
| Models.SanitiseRun | comix/models.py:72-73 | in a title, every run of whitespace between two kept characters, or at an end, becomes exactly one space, the parts on either side being sanitised on their own |
| Models.SanitiseDashes | comix/models.py:72-73 | every `-` comes from a `:`, and apart from whitespace the title is the cleaned original |
| Models.Suffix | comix/models.py:74-77 | ` - vNN` for a non-zero volume, else ` - NNN` for a non-zero issue, else nothing |
| Models.SuffixReadsBack | comix/models.py:74-77 | the number reads back from the suffix |
| Models.IssueReleaseName | comix/models.py:70-78 | the sanitised title followed by the suffix |
| Models.ReleaseName | comix/models.py:90-97 | the issue's name when there is one, otherwise the sanitised title and ` (id)` |
| Models.IntId | comix/models.py:99-103 | `int(id)` succeeds exactly when the id parses |
| Models.IntIdOfNumeral | comix/models.py:99-103 | a book whose id is the numeral of n has integer id n |
| AmzCodec.Pkcs7Pad | comix/amz.py:102-104 | 1 to 16 copies of the pad length are appended, giving a multiple of 16 |
| AmzCodec.Pkcs7Unpad | comix/amz.py:106-108 | the last byte's count is dropped unchecked; 0 empties the data; empty input is an `IndexError` |
| AmzCodec.Pkcs7RoundTrip | comix/amz.py:102-108 | unpad undoes pad |
| AmzCodec.Pkcs7UnpadZero | comix/amz.py:107-108 | a final 0 byte empties any input |
| AmzCodec.ChooseDeviceId | comix/amz.py:78-90 | a stored id is kept when its stripped length is 16, else the generated one is used and written |
| AmzCodec.GeneratedIdNeverKept | comix/amz.py:79-89 | a generated 32-character id is written and then replaced by the next session |
| AmzCodec.Pid | comix/amz.py:92 | eight upper-case hex characters, characters 23 to 30 of the SHA-256 hex digest |
| AmzCodec.HashPass | comix/amz.py:166-175 | `[???]` without a password, `**` for one character, else both ends with stars between |
| AmzCodec.HashPassHidesMiddle | comix/amz.py:166-175 | passwords with the same ends and length mask alike |
| AmzCodec.Blob | comix/amz.py:164 | a zero byte, 8 MAC bytes, the IV, then the ciphertext |
| AmzCodec.GenerateFrc | comix/amz.py:140-164 | the FRC is the Base64 of the blob |
| AmzCodec.FrcLength | comix/amz.py:155-164 | the blob is 25 bytes longer than the padded plaintext |
| AmzCodec.FrcRecoverable | comix/amz.py:155-164 | the holder of the device id decrypts the cookies back |
| AmzCodec.RequestPath | comix/amz.py:311-314 | the path, with parameters, `?` and query when there is a query |
| AmzCodec.SigningString | comix/amz.py:315 | by `SigningStringFields`: the five lines are the verb, the path, the date, the body and the ADP token |
| AmzCodec.SigningStringFields | comix/amz.py:315 | the signed string splits back into its five lines |
| AmzCodec.SignatureHeader | comix/amz.py:318-319 | the Base64 signature, `:` and the date, each recoverable |
| AmzCodec.RequestId | comix/amz.py:301-305 | the caller's non-empty id followed by the Unix time and `420`, else the UUID with its dashes removed and nothing else changed (`RemoveChar`) |
| AmzCodec.RemoveChar | comix/amz.py:303 | `replace(c, "")` leaves no `c`, drops a one-character `c`, keeps any other single character and any text without `c` |
| AmzCodec.RemoveCharConcat | comix/amz.py:303 | the replacement works on each part separately, so the other characters stay in order |
| AmzCodec.BaseHeaders | comix/amz.py:321-322 | the caller's headers, or the API defaults when none are given |
| AmzCodec.SignedHeaders | comix/amz.py:323-335 | the four signing headers always set, the correlation id and voucher accept only when asked, every other key kept |
| Amz.SignRequest | comix/amz.py:298-337 | the prepared request has the verb, URL and signed body; an unimportable key is the error |
| Amz.SignedRequestVerifiable | comix/amz.py:315-335 | the signature header holds the Base64 RSA signature of the signed string and the date |
| Amz.AmazonAuth.constructor | comix/amz.py:69-94 | the device id is chosen by `ChooseDeviceId` and a generated one written, the PID derived, and no account loaded and nothing sent |
| Amz.AmazonAuth.Send | comix/amz.py:210-212 | one request sent, one reply taken, the rest of the session unchanged |
| Amz.AmazonAuth.IpAddress | comix/amz.py:96-100 | looked up with one request only when not cached; fails with a network error exactly when it is not cached and no text reply comes; a success is the reply's text, and a cached address is returned without a request |
| Amz.AmazonAuth.Authenticate | comix/amz.py:177-220 | a failed IP lookup is a network error with no register request and the account kept; otherwise exactly one register request, carrying the email, password, device id, the FRC of the address and the domain; on success the account is `from_data` of the reply with the registration's private key and ADP token, and it is saved |
| Amz.AmazonAuth.PostRegister | comix/amz.py:177-212 | the IP lookup, then one register request; succeeds exactly when the reply to it is JSON, which it returns |
| Amz.AmazonAuth.AdoptAccount | comix/amz.py:213-220 | a reply `from_data` rejects is its error; otherwise the account is `from_data` of the reply updated by the device registration, saved on success |
| Amz.AmazonAuth.RegisterDevice | comix/amz.py:339-363 | no account is a `ValueError` and an unimportable key an `InvalidKey` error, both before any request; otherwise exactly the registration request is sent; on a 200 reply the private key and ADP token become the reply's `device_private_key` and `adp_token`, on another status they are kept; on success the account is saved; nothing else changes |
| Amz.AmazonAuth.TakeCredentials | comix/amz.py:357-360 | a 200 reply without `device_private_key` or `adp_token` is the `KeyError` of the first missing one; otherwise only those two fields change, as `AfterRegistration` says |
| Amz.AmazonAuth.RegistrationRequest | comix/amz.py:345-353 | the device registration is prepared as a signed POST to the registration URL with the XML body of the device id, PID and access token; an unimportable key is the error; nothing else changes |
| Amz.AmazonAuth.SignedRequest | comix/amz.py:283-337 | with an account loaded nothing is sent or changed, and the request returned is `SignRequest` of the account |
| Amz.AmazonAuth.RefreshToken | comix/amz.py:222-252 | without an account it authenticates; without a password it is `AuthFailed` before any request; otherwise it sends exactly `TokenRefresh` of the refresh token and succeeds exactly when the reply carries a string `access_token`, which replaces the token with an hour's expiry and is saved; a failure keeps the record |
| Amz.AmazonAuth.Login | comix/amz.py:254-281 | without a token file one authentication (one register request unless the IP lookup fails) and the account saved; a token file that does not read back is followed by an authentication and, on success, a save; with a valid saved token no request; with an expired one and a password the first request is its `TokenRefresh`, an accepted refresh gives the renewed record and a refused one is followed by one authentication, saved on success; never more than two register requests |
| Amz.AmazonAuth.LoadAccount | comix/amz.py:256-266 | the saved account is loaded, with no request, when `from_dict` accepts it; otherwise one authentication (one register request unless the IP lookup fails) and a save on success |
| Amz.AmazonAuth.RenewIfExpired | comix/amz.py:268-275 | never removes a register request; a valid account is kept without requests; a renewed account is saved; for an expired one with a password the first request is its `TokenRefresh`, an accepted refresh renews the token for an hour and saves, and a refused refresh or a missing password is followed by one authentication |
| Amz.AmazonAuth.Token | comix/amz.py:369-375 | without an account it logs in: an authentication when there is no token file or it does not read back, the saved token, with no request, when it reads back and is valid, and, when it reads back expired and there is a password, its `TokenRefresh` first and the reply's `access_token` when the refresh is accepted; with an account loaded no register request and the same account; a valid one's token is returned unchanged; an expired one without a password is `AuthFailed`; with a password exactly its `TokenRefresh` is sent and the new token is the reply's `access_token` |
| Exporter.FromChoice | comix/exporter.py:34-42 | `cbz` and `epub` in any case choose their type, everything else raw |
| Exporter.FromChoiceName | comix/exporter.py:34-42 | every type is chosen by its own name |
| Exporter.FromChoiceIgnoresCase | comix/exporter.py:36 | upper-casing the choice changes nothing |
| Exporter.ModeType | comix/exporter.py:214-222 | a name goes through `from_choice`, a type is used as is |
| Exporter.ModeTypeAgrees | comix/exporter.py:214-222 | a name and its type build the same exporter |
| Exporter.LastIndex | comix/exporter.py:76 | the last occurrence of a character, or -1 |
| Exporter.LastIndexUnique | comix/exporter.py:76 | the last occurrence is the only index with those properties |
| Exporter.LastIndexOfSuffix | comix/exporter.py:76 | the last occurrence in a suffix is the shifted last occurrence |
| Exporter.AllDotsShift | comix/exporter.py:76 | the leading-dots test reads the same in a suffix |
| Exporter.Splitext | comix/exporter.py:76 | root and extension rejoin to the path, and the extension starts with a dot |
| Exporter.Basename | comix/exporter.py:76 | the last component has no slash and ends the path |
| Exporter.ExtAt | comix/exporter.py:76 | the extension runs from the last dot when it is after the last slash and not in a leading run of dots |
| Exporter.ExtOfSuffix | comix/exporter.py:76 | a path's last component has the same extension as the path |
| Exporter.ExtOfBasename | comix/exporter.py:76-83 | selection by base name and renaming by full path see the same extension |
| Exporter.DotlessNeverValid | comix/exporter.py:25 | only `.jpg`, `.jpeg` and `.png` of `VALID_IMAGES` can ever match |
| Exporter.UpperCaseNotValid | comix/exporter.py:77 | matching is case-sensitive: `.JPG` is not valid |
| Exporter.Select | comix/exporter.py:72-78 | no more names than entries |
| Exporter.SelectComplete | comix/exporter.py:72-78 | every accepted entry's name is selected |
| Exporter.SelectSound | comix/exporter.py:72-78 | only accepted entries' names are selected |
| Exporter.SelectImagesMembers | comix/exporter.py:72-78 | a name is selected exactly when a non-directory entry with a valid extension carries it |
| Exporter.SelectConcat | comix/exporter.py:72-78 | selection keeps archive order |
| Exporter.SelectImageNames | comix/exporter.py:73-78 | the selection loop computes `SelectImages` |
| Exporter.ExtractedFiles | comix/exporter.py:71 | `extractall` writes exactly the non-directory entries |
| Exporter.PageNames | comix/exporter.py:80-87 | image k is named `{release} - p{start+k:03d}{ext}` |
| Exporter.DigitsThenExt | comix/exporter.py:84 | digits followed by an extension split one way only |
| Exporter.PageName | comix/exporter.py:84 | by `PageNameInjective`: different counters or extensions give different names |
| Exporter.PageNameInjective | comix/exporter.py:84 | two page names are equal only for the same counter and extension |
| Exporter.PageNamesDistinct | comix/exporter.py:80-87 | the names of one call are pairwise distinct |
| Exporter.RenamesAll | comix/exporter.py:80-87 | present, distinct sources all move: sources go, targets come |
| Exporter.RenameStep | comix/exporter.py:85 | one more rename, on sets |
| Exporter.RenamesLast | comix/exporter.py:81-86 | the last rename succeeds exactly when its source is there |
| Exporter.RenamesNext | comix/exporter.py:81-86 | a rename whose source is there succeeds, one whose source is missing fails the run |
| Exporter.RenamesFailurePersists | comix/exporter.py:81-86 | a failed rename fails the whole run |
| Exporter.PageTitle | comix/exporter.py:175-177 | by `PageTitleCover`: page 1 is the cover page, every other page carries its number |
| Exporter.PageTitleCover | comix/exporter.py:175-177 | only page 1 is titled the cover; other titles end with their page number |
| Exporter.XhtmlName | comix/exporter.py:192 | by `XhtmlNameInjective`: each page number has its own file name |
| Exporter.XhtmlNameInjective | comix/exporter.py:192 | each page number has its own XHTML file |
| Exporter.ArchiveEntries | comix/exporter.py:200-206 | one entry per image, two for EPUB |
| Exporter.EpubEntriesAt | comix/exporter.py:200-206 | in an EPUB, image k is at 2k and its page, numbered `start + k`, right after it |
| Exporter.Existing | comix/exporter.py:55-62 | the CBZ exporter looks for `{release}.cbz` and the EPUB exporter for `{release}.epub` in the parent directory, the raw exporter for no archive; otherwise the output directory must exist and hold as many valid images as the book has (`CbzArchiveSeen`, `EpubArchiveNotSeen`) |
| Exporter.EpubArchiveNotSeen | comix/exporter.py:153-158 | the EPUB exporter's own `.cbz` never makes it existing |
| Exporter.CbzArchiveSeen | comix/exporter.py:116-121 | the CBZ exporter's own archive makes it existing |
| Exporter.PresentOnceIff | comix/exporter.py:129-133 | each written image is there and comes for the first time |
| Exporter.PresentOncePrefix | comix/exporter.py:129-133 | a prefix of a successful run succeeds |
| Exporter.RenamedPresentOnce | comix/exporter.py:80-87 | after successful renames every target is found once |
| Exporter.PresentOnceNext | comix/exporter.py:129-133 | one more image is found exactly when present and new; otherwise the run fails |
| Exporter.ArchiveEntriesNext | comix/exporter.py:200-206 | the archive grows by the entries of one more image |
| Exporter.AddImageSucceeds | comix/exporter.py:64-91 | with distinct image names that no earlier page name hits, every image is renamed and then found |
| Exporter.MangaExporter.constructor | comix/exporter.py:48-53 | counters at 0 and 1, output directory present, no archive open |
| Exporter.MangaExporter.OpenArchive | comix/exporter.py:124-126 | `{release}.cbz` is opened in the parent directory, nothing else changes |
| Exporter.MangaExporter.RenameImages | comix/exporter.py:80-88 | succeeds exactly when `Renames` does, with the page names; the counter grows by their number; a missing source is the error |
| Exporter.MangaExporter.BaseAddImage | comix/exporter.py:64-91 | extract, then rename the selected images, archive untouched |
| Exporter.MangaExporter.InjectMeta | comix/exporter.py:174-192 | appends the XHTML page of the image |
| Exporter.MangaExporter.WriteImages | comix/exporter.py:129-134 | succeeds exactly when every image is found once; appends their entries, removes the files, advances the page counter |
| Exporter.MangaExporter.AddImage | comix/exporter.py:123-134 | the CBZ and EPUB exporters open `{release}.cbz`, add the images and write them out |
| Exporter.MangaExporter.SelfDestructAsWritten | comix/exporter.py:97-105 | as written: the files go, but only an empty directory is removed |
| Exporter.MangaExporter.SelfDestruct | comix/exporter.py:97-105 | as intended: the files go and the directory is removed |
| Exporter.MangaExporter.IsExisting | comix/exporter.py:116-121 | the exporter's own `Existing` check, on its kind, release name and files |
| Exporter.MangaExporter.CloseAsWritten | comix/exporter.py:136-139 | as written: the CBZ exporter closes its archive; its output directory goes only when it is empty, otherwise its files go, the directory stays and the result is `FileNotFoundError`; the raw and EPUB exporters change nothing |
| Exporter.MangaExporter.Close | comix/exporter.py:136-139 | as intended: the CBZ exporter closes its archive and removes its output directory with every file in it; the raw and EPUB exporters change nothing |
| Exporter.ExporterFactory | comix/exporter.py:211-222 | a fresh exporter of `ModeType(mode)` in its initial state |
| Client.RemapPublisher | comix/client.py:87-89 | by `RemapPublisherIff` and `RemapPublisherIdempotent` |
| Client.RemapPublisherIff | comix/client.py:87-89 | exactly `274`, `281` and `6670` become `6670`, every other id is kept |
| Client.RemapPublisherIdempotent | comix/client.py:87-89 | remapping twice is remapping once |
| Client.PageImages | comix/client.py:93-96 | a page gives at most one image per image entry |
| Client.PageImagesIff | comix/client.py:93-96 | an image is kept exactly when a FULL image of the page carries its URI and digest |
| Client.FullImagesIff | comix/client.py:91-96 | an image is kept exactly when it is a full image of some page |
| Client.FullImagesConcat | comix/client.py:91-96 | images keep page order |
| Client.CollectImages | comix/client.py:91-96 | the nested loops compute `FullImages` |
| Client.MapResultOk | comix/client.py:118-122 | the conversion succeeds exactly when every element does, element by element |
| Client.MapResultFirstError | comix/client.py:118-122 | a failure is that of the first element that fails |
| Client.IdOf | comix/client.py:119-121 | an integer id is kept, a string id is `int()` |
| Client.ConvertIds | comix/client.py:117-122 | the id loop computes `MapResult(listing, IdOf)` |
| Client.ReadIssues | comix/client.py:47-49 | the issue loop computes `MapResult(protos, FromProto)` |
| Client.IdKeyInjective | comix/client.py:40 | each index has its own `ids[k]` key |
| Client.IdKeyNotBase | comix/client.py:38-40 | no `ids[k]` key is one of the fixed keys |
| Client.IssueFormEntries | comix/client.py:38-40 | the form has the token, `amazon` and `ids[k] = ids[k]` for every k |
| Client.IdKeysSnoc | comix/client.py:39-40 | the keys of n+1 ids are those of n and `ids[n]` |
| Client.IssueFormKeys | comix/client.py:38-40 | the form has no other keys |
| Client.IssueForm | comix/client.py:38-40 | the form loop computes `IssueFormOf` |
| Client.FirstIssue | comix/client.py:80-85 | the first issue of the lookup, `None` exactly when it is empty |
| Client.ComicDataOf | comix/client.py:98-105 | the book's id, title and version, the remapped publisher, the issue and the full images |
| Client.ComicDataClean | comix/client.py:87-96 | the publisher is never `274` or `281`, and every image is a full image of a page |
| Client.IssuesOf | comix/client.py:42-50 | a reply that does not decode is a `DecodeError`; otherwise every summary is converted |
| Client.KeptRecord | comix/client.py:62-78 | the record is kept exactly when it decodes, has no error message, an id and pages |
| Client.CmxClient.constructor | comix/client.py:23-25 | a new session with nothing posted |
| Client.CmxClient.Send | comix/client.py:42 | one form posted, one reply taken |
| Client.CmxClient.IssueInfo | comix/client.py:37-50 | posts the token and the ids and returns `IssuesOf` the reply; a valid account is left unchanged |
| Client.CmxClient.GetComic | comix/client.py:52-105 | `None` for a record that is not kept; otherwise looks up the issue and returns `ComicDataOf` the record |
| Client.CmxClient.GetComics | comix/client.py:107-125 | `[]` for an empty listing; otherwise the ids converted in order and their issues looked up |
| Client.CmxClient.Close | comix/client.py:34-35 | the session is closed, nothing else changes |
| Client.Connect | comix/client.py:23-28 | the client starts after a successful login; a failed login is raised |

## Left out

- Network I/O. Requests and replies are queues of values; HTTP, TLS, the ipify lookup and the XML parsing of the device registration reply are not modelled. An XML reply is its status and the fields of its `response` element.
- Cryptography, compression and serialisation. MD5, SHA-256, PBKDF2, AES-CBC, HMAC-SHA256, RSA signing, gzip and `json.dumps` are parameters.
- Protobuf decoding. `comix_pb2` is not part of this model, and decoding is a parameter returning the fields the client reads.
- The URL constants of `comix/constants.py`. The three store endpoints are the values of `Client.Endpoint`.
- The filesystem. Directories are sets of file paths, without subdirectories. `rglob("*")` is the set of files of the output directory, so directories that `rglob` would also count are not counted.
- Zip decryption and its errors (a wrong passphrase, a corrupt archive). Extraction is the list of entries written; `extractall` overwriting an existing file is a set union.
- The contents of the files written to the archives (image bytes, XHTML pages, the EPUB style sheet and container). `_initialize_meta` is never called in the source, so the `_meta_injected` flag and its two template files are not modelled.
- `target_name.name` is the page name itself, which holds when the release name has no `/`.
- The EPUB exporter has no `close`, so its zip file is never closed by the code; the model leaves `archiveClosed` unchanged for it.
- The `ValueError` of `exporter_factory` for an unknown mode, which no value of `ExporterType` reaches.
- Letter case is ASCII only: `lower()` and `upper()` map `A`-`Z` and `a`-`z`.
- `int()` accepts an optional sign and ASCII digits; Python also accepts surrounding whitespace, underscores and other Unicode digits.
- `expire_at` is whole seconds; `from_data` computes a float.
- The date string of a signed request is an input; its formatting (`isoformat()[:-7] + "Z"`) is not modelled.
- `urlparse` is an input: a URL is given with its path, parameters and query.
- The header dictionary passed to `signed_request` is a value; the caller does not see it updated.
- One `Env` (clock, UUID, IV) per call: all steps of one call see the same time and random draws.
- `Json.PyError.NotAString` stands for reading a non-string where the code keeps the value as is; the model keeps strings only.
- Logging, `print` of error responses, and the dump file `get_comic` writes for a reply it cannot decode.
- Exporter.MangaExporter.Close: uses the clean-up `self_destruct_folder` evidently intends (see Findings). The code's CBZ `close` raises `FileNotFoundError` for an output directory that still holds a file and leaves the directory; `CloseAsWritten` states that behaviour.
- Models.FromDict: states only the `expire_at` field on its own; the full contents are stated by `Models.FromDictToDict`.

## Findings

| source | as written | input that shows it | evidently intended | confidence | as-written member | corrected member |
|---|---|---|---|---|---|---|
| comix/exporter.py:97-105 | the loop variable rebinds `folder`, so `rmdir` is applied to the last entry (already unlinked) and not to the directory | an output directory holding one file `a.jpg`: it is unlinked, then `rmdir` of `a.jpg` raises `FileNotFoundError` and the directory stays | every entry is removed and then the directory itself | not executed | Exporter.MangaExporter.SelfDestructAsWritten | Exporter.MangaExporter.SelfDestruct |
