# Verified models of the boot loader's self-contained algorithms

Most of the repository is command plumbing around hardware. This project models the parts
that are algorithms in their own right, in the form the C code has (classes with fields that
methods update, arrays edited in place, loops), and proves what they are for:

| component | files | main results |
|---|---|---|
| environment store | `EnvImage`, `EnvStore`, `EnvLaw`, `EnvPointer`, `EnvEnum` | the NUL-separated byte array refines an ordered map under every `setenv`; serial number and Ethernet address are write-once over whole runs, and nothing else is; what a pointer to a value shows after deletions; enumeration is complete |
| MTD partition table | `MtdText`, `MtdParts`, `MtdNames`, `MtdLimits`, `MtdRoundTrip`, `MtdAccepted`, `MtdRun`, `MtdTable`, `MtdIds`, `MtdCache`, `MtdInit`, `MtdWitness`, `MtdNor` | print then parse is the identity, with its exact condition; every reachable table is in order and the current partition stays the same one; the string cache is transparent, with its exact condition on the environment |
| Kermit download | `KermitFrame`, `KermitCheck`, `KermitProtocol`, `KermitDelivery`, `KermitReceiver` | one flipped bit behind the length is always refused; what the receiver makes of any stretch of the line; exactly-once delivery over a line that damages and repeats packets, and exactly when a packet is added to the right download |
| S-records | `SRecord`, `SRecordLoad`, `SRecordTypes`, `SRecordRun` | dump then load restores the region; files of all record types are stored at their addresses; one damaged digit behind the length field is always noticed, and what a damaged type or length digit does |
| flash planner | `Flash`, `FlashExact`, `FlashDriver` | plans are exact, and stay inside the request exactly when no bank pair wraps |
| memory test | `MemTest` | exactly which address decoders pass |
| assembler and stepper | `BedbugFields`, `BedbugBranch`, `BedbugWords` | packed operands survive for any table of disjoint fields; branch targets survive exactly when in reach; stepping follows the architecture |
| log buffer | `LogText`, `LogRing` | the ring holds the tagged text of every run of calls, in both header forms |
| EEPROM | `Eeprom` | chunked access refines flat access, with its exact conditions |

`Machine` holds what they share. An operation is usually present twice: a function or
predicate says what it means, a method does it the way the source does, and the method's
`ensures` ties the two; the lemmas are about the functions and so hold of the methods. What the
functions say is tied to the formats themselves, by characters, codes and numbers, in `KermitCheck`,
`SRecordTypes`, `BedbugWords`, `MtdNames`, `MtdLimits` and `EnvLaw`.

Where a promised property turned out not to hold of the code on all inputs, the code is
kept as it is and the exact condition is proved instead:

- A flash bank that ends at 0xFFFFFFFF makes the running address wrap to 0, so a later bank
  at address 0 is planned as well (`Flash.PlansStayInside`, `MtdNor.PartitionIsErasedExactly`).
- A plan that starts at the last address of a flash bank and ends inside a sector is passed over
  without an error; all other intervals that are not whole sectors are refused
  (`FlashExact.RefusalIsExact`).
- A printed partition table is not always read back (`MtdRoundTrip.RoundTripExactly`), for two
  reasons: a partition given as `-` may be smaller than `MIN_PART_SIZE`, the least size the parser
  takes as a number (`MtdWitness.SmallRestIsLost`, a 2 KB device); and a partition of size
  0xFFFFFFFF prints as the number the parser takes for "all remaining space", which is refused
  unless it is the last (`MtdWitness.WholeBeforeBlockIsLost`).
- `generate_mtdparts` does not count the prefix `mtdparts=` against its limit, so it can save a text
  that the next `mtdparts_init` refuses as too long. The table saved is kept until the next restart
  in any case, and rebuilt after it exactly when it is legible and not too long
  (`MtdCache.SavedThenRestarted`).
- `current_partnum` is an unsigned char and grows past 255 to 0 (`MtdTable.InsertKeepsCurrent`);
  deletion goes by offset and misjudges ties (`MtdTable.DeleteKeepsCurrent`).
- `mtdparts_init` copies `mtdparts` through a pointer that it took before three variables were
  deleted. If one of them stood before `mtdparts`, the text has moved and the copy is the value
  without its first characters (`EnvPointer.StaleIsSuffix`). A call is wrong exactly when it finds the
  text that the last parse has copied, with the same ids, and that text is not innocent: not empty, not
  too long for any variable, and not a description of the table kept (`MtdCache.CallIsWrongExactly`). At
  every point of a run the next call is right in every environment exactly when each parse has copied an
  innocent text (`MtdCache.RunTransparentExactly`), which for moves of at most the length of the
  value means a move of 0 or of the whole length
  (`MtdCache.TransparentExactly`). `MtdWitness.WrongTableIsKept` is an environment in
  which the next call returns 0 with a table that its text does not describe. After a large move
  the old text can still be found behind the image (`EnvPointer.OldTextIsLeft`, `MtdWitness.ShortTextIsLeft`).
- Enumerating an empty environment never ends (`EnvEnum.EmptyEnumerationNeverEnds`).
- Two damaged characters of a Kermit packet can cancel in the one-character check and turn a
  data packet into a break (`KermitDelivery.UndetectedTypeDamage`).
- A damaged Kermit packet is given up at its first control character, and what is left of it is
  scanned for packets again. `KermitDelivery.StretchExactly` says, for every stretch of the line before an
  intact packet, what becomes of that packet. If the stretch ends between packets, the packet is
  taken once, and added to the download as it was before exactly when the scan has kept that
  (`Awaits`); if it ends within a packet, nothing of the intact one is stored, and it still
  arrives when it is sent again (`KermitDelivery.SwallowedArrives`); an ETX outside a packet ends the transfer. All three
  happen to copies with intact length, sequence and type characters (`KermitDelivery.EtxDamage`,
  `KermitDelivery.SohDamage`, `KermitDelivery.SohInside`).
- A header given up between two packets takes back the packet before, although it was stored and
  acknowledged (`KermitDelivery.FragmentTakesBack`), and so does a damaged packet with the number of that
  packet (`KermitDelivery.TakesBack`). A packet with any other damaged sequence character is
  harmless before the first copy of a packet, if the damage is noticed
  (`KermitDelivery.DamagedNumberIsEarly`), and between two copies has the data stored twice
  (`KermitDelivery.NumberDamageDoubles`).
- The type digit of an S-record is outside its checksum: one damaged digit turns a data record into
  the end of the download (`SRecord.DataBecomesEnd`). A damaged length is noticed when it is too large, and
  otherwise exactly when the sum of the shorter record is wrong (`SRecord.LengthDamage`), which need
  not be (`SRecord.LengthDigitCanPass`).
- `log show` masks its count, so a full ring shows nothing (`LogRing.LogBuffer.Show`).
- A level tag cut in two by separate log calls is not recognised (`LogText.SplitExactly`).
- Write pages of more than 256 bytes are misjudged (`Eeprom.ChunksStayInPageExactly`).
- Loading the dump of an empty region reports the size 2 (`SRecordLoad.DumpThenLoad`).
- Branch encodings with reserved BO bits set count as not taken (`BedbugBranch.Decide`).

Common assumptions: `unsigned long` has 32 bits, strings hold no NUL, the target is
big-endian. What happens outside the modelled code enters as a parameter: the characters
that arrive on a line, the operator's interrupts, I2C failures, the environment variables
seen by each call, the verdict of the console and baud-rate hooks.

## Model

| member | source | states |
|---|---|---|
| EnvImage.ImageInjective | src/common/cmd_nvedit.c:163-172 | one byte array represents at most one list of bindings, so reading it back is well defined |
| EnvImage.FirstDoubleNul | src/common/cmd_nvedit.c:298-303 | the first double NUL of an image is its end, which is what the search for the end relies on |
| EnvImage.EntryAt | src/common/cmd_nvedit.c:168-172 | entry k of the list stands at its computed start, NUL-terminated |
| EnvStore.EnvMatch | src/common/cmd_nvedit.c:574-583 | a name or "name=..." matches exactly the entry with that name and yields its value's index |
| EnvStore.Store.Search | src/common/cmd_nvedit.c:168-172 | the scan finds the entry of the name, or the end of the list |
| EnvStore.Store.TryEntry | src/common/cmd_nvedit.c:168-172 | one turn of the scan: where the entry ends and whether it matches |
| EnvStore.Store.GetEnv | src/common/cmd_nvedit.c:502-522 | reads the map back: the address of the value in the image, or nothing exactly when the name is unbound |
| EnvStore.StringEnd | src/common/cmd_nvedit.c:169-170 | the inner scan stops at the end of the entry |
| EnvStore.ShiftDown | src/common/cmd_nvedit.c:269-277 | the in-place move of the rest of the array over a deleted entry, byte by byte; what is behind the new image stays |
| EnvStore.Splice | src/common/cmd_nvedit.c:269-277 | the move leaves the image of the list without the entry over the old bytes |
| EnvStore.DropLast | src/common/cmd_nvedit.c:263-268 | deleting the last entry ends the image one entry earlier and leaves all other bytes |
| EnvStore.Store.Delete | src/common/cmd_nvedit.c:263-278 | in-place deletion leaves the image of the list without that entry, and the old bytes behind it |
| EnvStore.FindEnd | src/common/cmd_nvedit.c:301-303 | finds where the image ends |
| EnvStore.EntryLength | src/common/cmd_nvedit.c:304-313 | the length computed before an overflow is reported is that of the joined entry |
| EnvStore.WriteEntry | src/common/cmd_nvedit.c:318-329 | writes name, '=', the words joined by blanks and the double NUL; all other bytes stay |
| EnvStore.CopyString | src/common/cmd_nvedit.c:318-325 | copies a string with its NUL; all other bytes stay |
| EnvStore.Store.Append | src/common/cmd_nvedit.c:298-329 | appends the binding; overflow exactly when the new image does not fit ENV_SIZE |
| EnvStore.Store.SetEnv | src/common/cmd_nvedit.c:143-332 | the whole byte array after setenv is the image of the specified list over the old bytes, and the return code is 1 exactly on refusal or overflow |
| EnvStore.Store.Clear | src/common/cmd_nvedit.c:163-278 | the deletion half: removes the old definition, or refuses and changes nothing |
| EnvStore.Store.Denied | src/common/cmd_nvedit.c:177-246 | refuses exactly protected names and what the console and baud-rate hooks reject |
| EnvStore.SetEnvIsMapUpdate | src/common/cmd_nvedit.c:143-332 | setenv binds the name to its words joined by blanks (or removes it), keeps every other binding and their order, and changes nothing when refused |
| EnvStore.AfterIsLegal | src/common/cmd_nvedit.c:143-332 | names stay unique and entries legal under every setenv |
| EnvStore.Store.IsProtected | src/common/cmd_nvedit.c:177-199 | the protection test on the bytes is the write-once rule for serial# and ethaddr |
| EnvStore.VendorParametersAreWriteOnce | src/README:1601-1622 | once set, a vendor parameter survives every run of set, delete, refused and overflowing calls |
| EnvStore.UnprotectedCanBeDeleted | src/common/cmd_nvedit.c:177-199 | any other value can be removed by one call, so the lock is exactly that rule |
| EnvLaw.SerialIsWriteOnce | src/README:1601-1622 | without the overwrite option a serial# that is set survives every run of calls |
| EnvLaw.EthaddrIsWriteOnce | src/README:1601-1622 | so does an ethaddr, unless it is the built-in address that may be replaced once |
| EnvLaw.FixedExactly | src/common/cmd_nvedit.c:177-199 | a value can be changed by no call exactly when it is one of these |
| EnvLaw.OrdinaryIsSet | src/common/cmd_nvedit.c:177-332 | every other variable takes any value that fits, and all but the console variables can be deleted |
| EnvLaw.ConsoleStays | src/common/cmd_nvedit.c:201-246 | stdin, stdout and stderr cannot be deleted or set to what the console refuses, nor baudrate to what is not supported |
| EnvLaw.IllegalName | src/common/cmd_nvedit.c:157-160 | a name with '=' is refused and changes nothing |
| EnvLaw.ByTheByte | src/common/cmd_nvedit.c:318-329 | words are joined by blanks and entries are stored as name=value with NULs, character by character |
| EnvStore.PointerSurvives | src/common/cmd_nvedit.c:263-278 | a pointer from getenv stays on its value under a setenv of another name exactly when that name was not stored before it |
| EnvPointer.SetEnvIs | src/common/cmd_nvedit.c:391-398 | setenv of a variable that nothing guards is a deletion or an append on list and bytes |
| EnvPointer.ReadsValue | src/common/cmd_nvedit.c:502-522 | a pointer from getenv shows the value as a C string, and advanced by i its rest |
| EnvPointer.AllMove | src/common/cmd_nvedit.c:263-278 | a run of deletions keeps a value and moves it by the lengths of the deleted entries that stood before it |
| EnvPointer.StaleIsSuffix | src/common/cmd_nvedit.c:263-278 | a pointer taken before the deletions then shows the value without as many characters as it was moved |
| EnvPointer.StaleExactly | src/common/cmd_nvedit.c:263-278 | so it shows the value exactly when none of the deleted stood before it |
| EnvPointer.OldTextIsLeft | src/common/cmd_nvedit.c:263-278 | when the last value moves completely below its old place, the old pointer still shows it, in bytes behind the image |
| EnvEnum.ApiEnvEnum | src/api/api.c:519-560 | the kernel side returns the entry after the named one, or none at the end |
| EnvEnum.Application.EnvEnum | src/api_examples/glue.c:378-405 | the application side yields the next name in its static buffer |
| EnvEnum.Application.CopyName | src/api_examples/glue.c:396-402 | copies the name up to its equals sign |
| EnvEnum.Application.EnumerateAll | src/api_examples/demo.c:175-178 | the caller's loop collects every name once, in storage order |
| EnvEnum.EnumerationIsComplete | src/api_examples/glue.c:378-405 | call n from NULL yields name n, and then NULL |
| EnvEnum.EmptyEnumerationNeverEnds | src/api_examples/glue.c:378-405 | on an empty environment every call yields an empty name and none yields NULL |
| MtdText.SimpleStrtoul | src/lib_generic/vsprintf.c:25-46 | digit parsing with base detection agrees with its specification, position included |
| MtdText.ParseMemsize | src/common/cmd_jffs2.c:211-237 | a size with k, m or g suffix, and where it ends |
| MtdText.MemsizeRoundTrip | src/common/cmd_jffs2.c:211-258 | memsize_parse takes back every 32-bit size that memsize_format prints |
| MtdNames.PrefixedReads | src/lib_generic/vsprintf.c:25-46 | a number behind 0x is hexadecimal and one behind 0 octal, with any number of digits |
| MtdNames.LetterReads | src/common/cmd_jffs2.c:211-237 | the letters K, M and G, large and small, multiply by 2^10, 2^20 and 2^30 |
| MtdNames.NameSpells | src/common/cmd_jffs2.c:745-776 | the generated name of a partition spells its size and offset in eight digits each |
| MtdNames.NewPartIs | src/common/cmd_jffs2.c:745-776 | a definition without a name gets a generated one, and its size, offset and flag are those read |
| MtdNames.IdReads | src/common/cmd_jffs2.c:1145-1171 | nor, nand and onenand with a number below 256 are the devices of these types |
| MtdNames.IdRoundTrip | src/common/cmd_jffs2.c:1145-1171 | the name printed for a device is read back |
| MtdNames.IdsRoundTrip | src/common/cmd_jffs2.c:1536-1637 | a list of ids written as text is read back exactly when all the devices exist and none is named twice |
| MtdParts.ValidatedFits | src/common/cmd_jffs2.c:471-503 | an accepted partition lies inside its device without 32-bit wrap-around |
| MtdLimits.BlockPartitionExactly | src/common/cmd_jffs2.c:394-459 | on NAND a partition is accepted exactly when it is inside the device and begins and ends on erase blocks |
| MtdLimits.SectorPartitionExactly | src/common/cmd_jffs2.c:335-383 | on NOR exactly when it begins with a sector and ends with one |
| MtdLimits.SectorSizeIsLargest | src/common/cmd_jffs2.c:335-383 | the sector size kept with a partition is that of the largest sector |
| MtdLimits.LeastSize | src/common/cmd_jffs2.c:683-694 | sizes from 4096 on are taken |
| MtdLimits.LongestTexts | src/common/cmd_jffs2.c:1693-1706 | mtdids may have 127 characters and mtdparts 511 |
| MtdLimits.OneDefinition | src/common/cmd_jffs2.c:1223-1270 | a definition with size, offset, name and flag, character by character |
| MtdLimits.TwoDefinitions | src/common/cmd_jffs2.c:1271-1280 | definitions are separated by commas |
| MtdLimits.TwoDevices | src/common/cmd_jffs2.c:1282-1290 | devices are separated by semicolons, behind the prefix |
| MtdRun.ValidateNor | src/common/cmd_jffs2.c:335-383 | accepts exactly partitions that start and end on sectors, and finds the largest sector |
| MtdRun.ScanSectors | src/common/cmd_jffs2.c:363-374 | the sector loop: alignment of both ends and the largest sector |
| MtdRun.PartValidate | src/common/cmd_jffs2.c:471-503 | the validation as the loops compute it |
| MtdRun.ParsePart | src/common/cmd_jffs2.c:668-776 | one partition definition, with size, offset, name and flag |
| MtdRun.ParseName | src/common/cmd_jffs2.c:703-720 | a user-given name up to the closing parenthesis, or a generated one |
| MtdRun.ParseEnd | src/common/cmd_jffs2.c:729-743 | what may follow a partition definition |
| MtdRun.ParsePartList | src/common/cmd_jffs2.c:989-1016 | partitions parsed, placed behind each other and validated, one after the other |
| MtdRun.ParseDevice | src/common/cmd_jffs2.c:941-1066 | one device definition, with its partitions placed and sorted |
| MtdRun.ParseBody | src/common/cmd_jffs2.c:975-1066 | the definition after the mtd-id |
| MtdRun.ParseTable | src/common/cmd_jffs2.c:1479-1526 | parse_mtdparts computes the table the text describes, or fails |
| MtdRun.PrintPart | src/common/cmd_jffs2.c:1223-1270 | prints one partition, leaving out a contiguous offset, exactly when there is room for all of it |
| MtdRun.PrintParts | src/common/cmd_jffs2.c:1216-1282 | the partitions of one device, separated by commas, exactly when there is room |
| MtdRun.GenerateTable | src/common/cmd_jffs2.c:1184-1296 | the printing loops produce the text of the table, and fail exactly when the text without its prefix does not leave room for the NUL |
| MtdRoundTrip.PartRoundTrip | src/common/cmd_jffs2.c:668-776 | a printed partition is read back with its offset, size, flag and user-given name |
| MtdRoundTrip.DeviceRoundTrip | src/common/cmd_jffs2.c:941-1066 | a printed device is read back |
| MtdRoundTrip.TableRoundTrip | src/common/cmd_jffs2.c:1184-1296 | parsing a printed table rebuilds the same devices, offsets, sizes, flags and user-given names |
| MtdRoundTrip.RoundTripExactly | src/common/cmd_jffs2.c:1184-1296 | the round trip holds exactly when every size is at least MIN_PART_SIZE and only last partitions have the size 0xFFFFFFFF |
| MtdAccepted.AcceptedIsPlain | src/common/cmd_jffs2.c:1479-1526 | every accepted text whose partitions are at rising offsets gives a table that the round trip is about |
| MtdAccepted.AcceptedRoundTrip | src/common/cmd_jffs2.c:1184-1296 | so what was parsed from any such text is printed and read back exactly when it is legible |
| MtdRoundTrip.TooSmall | src/common/cmd_jffs2.c:676-693 | the printed size of a partition below MIN_PART_SIZE is refused |
| MtdRoundTrip.RestResolves | src/common/cmd_jffs2.c:471-503 | a definition with '-' resolves to what is left of the device, however small |
| MtdWitness.SmallRestIsLost | src/common/cmd_jffs2.c:676-693 | "-(x)" on a device of 2048 bytes is accepted, and its printed table is not rebuilt |
| MtdWitness.WholeBeforeBlockParses | src/common/cmd_jffs2.c:941-1066 | a block and then '-' from offset 0 on a device of 0xFFFFFFFF bytes are accepted, the second sorted before the first |
| MtdWitness.WholeBeforeBlockIsLost | src/common/cmd_jffs2.c:729-743 | that table is not rebuilt from its text |
| MtdTable.SortAddInserts | src/common/cmd_jffs2.c:583-637 | insertion is before the first partition that does not start earlier, and is refused exactly for a second one at offset 0 |
| MtdTable.SortAddKeeps | src/common/cmd_jffs2.c:583-637 | insertion keeps the order, at most one partition at offset 0, and the partitions as a multiset |
| MtdTable.FindPlace | src/common/cmd_jffs2.c:599-632 | the search loop finds the place of insertion, or refuses |
| MtdTable.ParsedTableOk | src/common/cmd_jffs2.c:1479-1526 | every accepted table is sorted, counted, inside its devices and has distinct devices |
| MtdTable.InsertKeepsCurrent | src/common/cmd_jffs2.c:583-637 | insertion keeps the current partition current exactly unless index 255 has to grow |
| MtdTable.DeleteKeepsCurrent | src/common/cmd_jffs2.c:512-552 | deleting another partition keeps the current one exactly unless a tie after it is deleted |
| MtdTable.CurrentDeleted | src/common/cmd_jffs2.c:522-537 | when the current partition is deleted, the first one becomes current |
| MtdTable.RisingDeleteKeepsCurrent | src/common/cmd_jffs2.c:512-552 | with distinct offsets it always does |
| MtdTable.TieLosesCurrent | src/common/cmd_jffs2.c:512-552 | with a tie the index drops from 0 to 255 |
| MtdTable.GlobalIndex | src/common/cmd_jffs2.c:265-298 | mtddevnum is the index of the current partition in the concatenation of all lists |
| MtdTable.NumberIsExact | src/common/cmd_jffs2.c:265-298 | the number stored is that index exactly for the first 65536 partitions |
| MtdTable.Table.IndexPartitions | src/common/cmd_jffs2.c:265-298 | the numbering variables describe the current partition |
| MtdTable.Table.PartsBefore | src/common/cmd_jffs2.c:275-290 | the loop over the devices before the current one |
| MtdTable.Table.PartSortAdd | src/common/cmd_jffs2.c:583-637 | insertion into the table keeps its invariant, numbering and current partition |
| MtdTable.Table.NumberAfterInsert | src/common/cmd_jffs2.c:600-628 | the current index after an insertion, by comparing offsets |
| MtdTable.Table.PartDel | src/common/cmd_jffs2.c:512-552 | deletion keeps the invariant; deleting the only partition deletes the device |
| MtdTable.Table.NumberAfterDelete | src/common/cmd_jffs2.c:522-537 | the current index after a deletion, by comparing offsets |
| MtdTable.Table.DeviceDel | src/common/cmd_jffs2.c:862-884 | deleting a device keeps the current partition or goes to the first device |
| MtdTable.Table.DeviceAdd | src/common/cmd_jffs2.c:914-922 | adding a device keeps the current partition, or makes its first one current |
| MtdTable.Table.ChangePartition | src/common/cmd_jffs2.c:2086-2088 | makes any partition current, with its numbering |
| MtdTable.Table.Load | src/common/cmd_jffs2.c:1735-1738 | after a parse the first partition of the first device is current |
| MtdInit.Parser.ReadId | src/common/cmd_jffs2.c:1145-1171 | id_parse: device type and number |
| MtdInit.Parser.ReadIdEntry | src/common/cmd_jffs2.c:1547-1625 | one entry of mtdids, with the size of its device |
| MtdInit.Parser.ParseIds | src/common/cmd_jffs2.c:1536-1637 | parse_mtdids computes the id list of its text, or fails and empties it, except that entries before a missing device stay |
| MtdInit.Parser.DevicesInit | src/common/cmd_jffs2.c:1073-1080 | no devices are left, and the bytes of the environment are those after deleting partition, mtddevnum and mtddevname |
| MtdInit.Parser.SaveFirst | src/common/cmd_jffs2.c:300-326 | current_save for the first partition: the three variables are stored again |
| MtdInit.FirstOfReads | src/common/cmd_jffs2.c:300-326 | the text stored in partition names the device, and its partition 0 |
| MtdInit.SavedAre | src/common/cmd_jffs2.c:265-326 | where there is room, partition, mtddevnum and mtddevname hold the device, 0 and the name of the first partition |
| MtdInit.Parser.ParseParts | src/common/cmd_jffs2.c:1479-1526 | drops the devices, fetches mtdparts again and computes its table, in the environment after the deletions |
| MtdInit.Parser.Reparse | src/common/cmd_jffs2.c:1723-1747 | parses mtdparts again and copies whatever is then at its old address |
| MtdInit.Parser.UpdateIds | src/common/cmd_jffs2.c:1708-1721 | parses mtdids again exactly when it differs from the remembered text |
| MtdInit.Parser.UpdateParts | src/common/cmd_jffs2.c:1723-1747 | parses mtdparts again exactly when it or the ids have changed, and drops the table when the variable is gone |
| MtdInit.Parser.MtdpartsInit | src/common/cmd_jffs2.c:1645-1748 | one call on the byte array of the environment: the new cache, the return code and the new bytes are those specified, the copy through the old pointer included |
| MtdCache.CopyIsSuffix | src/common/cmd_jffs2.c:1723-1734 | what is remembered of mtdparts is its value without as many characters as the deletions moved it |
| MtdCache.InitIsFresh | src/common/cmd_jffs2.c:1645-1748 | from a coherent cache, a successful call leaves the table of a parse from scratch, and a coherent cache if what it copied is innocent |
| MtdCache.VariableIsUsed | src/common/cmd_jffs2.c:1666-1692 | an mtdids variable that is set is used whatever the default is |
| MtdCache.DefaultIsUsed | src/common/cmd_jffs2.c:1666-1692 | otherwise the default is used, and stored if it fits; without either the call fails and changes nothing |
| MtdCache.WhatIsDropped | src/common/cmd_jffs2.c:1746-1747 | a call that finds no mtdparts forgets its text and drops the table that it gave |
| MtdCache.FailureEmpties | src/common/cmd_jffs2.c:1708-1731 | a call that cannot parse ids or table leaves no devices and no text |
| MtdCache.ClearedDrops | src/common/cmd_jffs2.c:1073-1080 | partition, mtddevnum and mtddevname are deleted and no other variable |
| MtdCache.RunCoherent | src/common/cmd_jffs2.c:1645-1748 | every run of safe calls leaves cached lists that belong to the cached strings |
| MtdCache.RunTransparentExactly | src/common/cmd_jffs2.c:1645-1748 | over every run of calls in any environments, the cache is transparent at every point if and only if every call that parsed copied an innocent text: none, one too long for a variable, or one that describes the same table |
| MtdCache.HarmlessRunIsSafe | src/common/cmd_jffs2.c:1645-1748 | calls in environments in which mtdparts is not moved, or by its whole length, are such a run |
| MtdCache.CallIsWrongExactly | src/common/cmd_jffs2.c:1645-1748 | after any run, a call is wrong exactly when it finds the ids and the copied text of the last call that parsed, and that text is not innocent |
| MtdCache.CacheIsTransparent | src/common/cmd_jffs2.c:1645-1748 | after every sequence of calls in harmless environments, failed parses included, a successful call in any environment leaves the table of a parse from scratch |
| MtdCache.NoneBeforeIsHarmless | src/common/cmd_jffs2.c:265-326 | an environment is harmless when none of partition, mtddevnum and mtddevname is stored before mtdparts |
| MtdCache.FalseCopyIsBelieved | src/common/cmd_jffs2.c:1723-1734 | when a proper suffix was copied and mtdparts becomes that suffix, the next call returns 0 and keeps the old table, though the text describes none |
| MtdCache.InnocentExactly | src/common/cmd_jffs2.c:1723-1734 | after any call that parsed, the next call is transparent in every environment exactly when the copied text is innocent |
| MtdCache.TransparentExactly | src/common/cmd_jffs2.c:1723-1734 | for moves of at most the length of the value, exactly when the move was 0 or the whole length |
| MtdCache.PrintedIsRebuilt | src/common/cmd_jffs2.c:1703-1706 | from a coherent cache, as after a restart, a call rebuilds a printed table exactly when it is legible and its text with the prefix is below MTDPARTS_MAXLEN |
| MtdCache.SavedThenRestarted | src/common/cmd_jffs2.c:1311-1323 | after a save, successful or not, the next call keeps the table, legible or not; after a restart it comes back exactly when it is legible and its text is not too long |
| MtdWitness.WrongTableIsKept | src/common/cmd_jffs2.c:1723-1734 | partition, mtdids and mtdparts stored in this order, and then mtdparts set to "s)": the second call returns 0 with a table that no fresh parse gives |
| MtdWitness.ShortTextIsLeft | src/common/cmd_jffs2.c:1723-1734 | with a text of at most 16 characters in the same place the copy is true, from bytes behind the image |
| MtdNor.PartitionIsErasedExactly | src/common/cmd_flash.c:361-378 | the interval of an accepted NOR partition plans exactly its sectors in its bank, exactly when it does not wrap into a later bank at 0 |
| MtdNor.PartitionInterval | src/common/cmd_flash.c:361-378 | the computed interval is the partition's, and its plan is exact |
| KermitFrame.ReadEncoded | src/common/cmd_load.c:865-957 | the frame reader takes back every packet a sender may form, short or long |
| KermitFrame.ReadIsLocal | src/common/cmd_load.c:865-957 | what follows a packet does not change how it is read |
| KermitFrame.DamagedCopyEnds | src/common/cmd_load.c:865-957 | a copy with intact length and sequence characters is read to an end inside it, with its number |
| KermitFrame.EndsAtControl | src/common/cmd_load.c:865-957 | a packet that is not complete ends at the next control character, as damaged or in its header |
| KermitCheck.CheckChanges | src/common/cmd_load.c:585-593 | the one-character check changes with every one of the low eight bits of the sum |
| KermitCheck.BodyAccepted | src/common/cmd_load.c:931-957 | data, check and end are accepted exactly when the data is printable and the check is that of the sum |
| KermitCheck.ShortAccepted | src/common/cmd_load.c:865-957 | a short packet is accepted exactly when the check counts all characters from the length on |
| KermitCheck.LongAccepted | src/common/cmd_load.c:903-957 | an extended packet exactly when header check and block check are right |
| KermitCheck.OneBitIsRefused | src/common/cmd_load.c:865-957 | a packet with one flipped bit anywhere behind its length character is not accepted |
| KermitCheck.BreakPacket | src/common/cmd_load.c:865-957 | the break packet number 1, byte by byte, is formed and accepted |
| KermitCheck.CharactersAre | src/common/cmd_load.c:865-880 | control characters have the bits of 0xE0 clear, and extended lengths count in 95s |
| KermitProtocol.FeedQuoted | src/common/cmd_load.c:692-707 | unquoting inverts control quoting for every byte string and legal quote character |
| KermitDelivery.RunScan | src/common/cmd_load.c:802-976 | the scan of any stretch says where it leaves the receiver: between packets, within one, interrupted or at the end, and whether download and checkpoint are still those before the packet |
| KermitDelivery.StretchExactly | src/common/cmd_load.c:802-976 | any stretch and then an intact packet: taken once, and added to the download before it exactly when the scan says so; without effect behind a partial packet; aborted by ETX; ended by an accepted break |
| KermitDelivery.BaseExactly | src/common/cmd_load.c:881-898 | the download that a packet would be added to is the one before it exactly when the scan says so |
| KermitDelivery.RunSwallowed | src/common/cmd_load.c:899-957 | behind a partial packet an intact one ends that packet as damaged; the state is rolled back and nothing of the intact one is stored |
| KermitDelivery.ScanOn | src/common/cmd_load.c:802-976 | stretches compose: the scan of two in a row is the second scan from where the first one ended |
| KermitDelivery.TakesBack | src/common/cmd_load.c:881-963 | a header given up, or a damaged packet with the number of the packet before, leads back to the checkpoint of the packet before |
| KermitDelivery.RunDelivery | src/common/cmd_load.c:802-976 | whatever is on the line before it, a packet has its effect once if the scan keeps the download |
| KermitDelivery.ExactlyOnce | src/common/cmd_load.c:802-976 | over every transfer whose stretches between the packets keep the download, the bytes stored are those of each packet taken once, in order, and their number is returned |
| KermitDelivery.FileArrives | src/common/cmd_load.c:637-707 | a quoted file, cut into packets anywhere, arrives as the file |
| KermitDelivery.DamagedCopy | src/common/cmd_load.c:865-957 | a copy with intact length and sequence characters takes nothing back; it is read to an end, and its rest is scanned from there |
| KermitDelivery.DamagedCopyIsEarly | src/common/cmd_load.c:865-957 | with an intact type character and neither SOH nor ETX in its unread rest it may come before the packet |
| KermitDelivery.DamagedNumberIsEarly | src/common/cmd_load.c:865-957 | so may a packet whose damage is noticed and whose number is not that of the packet before |
| KermitDelivery.SwallowedArrives | src/common/cmd_load.c:865-957 | so may a swallowed copy of the packet itself |
| KermitDelivery.RunFragment | src/common/cmd_load.c:865-880 | a packet given up in its header has no effect but a negative acknowledge and the return to the checkpoint |
| KermitDelivery.EtxDamage | src/common/cmd_load.c:853-864 | a damaged copy of a data packet whose rest aborts the transfer |
| KermitDelivery.SohDamage | src/common/cmd_load.c:853-864 | another whose last character makes the next intact packet have no effect |
| KermitDelivery.SohInside | src/common/cmd_load.c:853-864 | another with a SOH in its rest, after which the next packet is taken |
| KermitDelivery.CopyIsDamaged | src/common/cmd_load.c:865-898 | these are copies with intact length, sequence and type characters |
| KermitDelivery.FragmentTakesBack | src/common/cmd_load.c:958-963 | a SOH and a control character after an accepted packet take its data back |
| KermitDelivery.NumberDamageDoubles | src/common/cmd_load.c:881-898 | a damaged packet with another number between two copies has the data stored twice |
| KermitDelivery.ByTheByte | src/common/cmd_load.c:853-975 | ^C between packets aborts, the break packet of bytes 1 35 33 66 40 13 ends the transfer, and type 68 adds its data |
| KermitDelivery.UndetectedTypeDamage | src/common/cmd_load.c:865-957 | a damaged type character can pass the check and end the transfer |
| KermitProtocol.ReplyIsReadable | src/common/cmd_load.c:603-628 | every acknowledge and parameter reply passes the receiver's own framing and check when lines end with CR |
| KermitProtocol.AnswersItsPacket | src/common/cmd_load.c:958-975 | every packet read to an end is answered once with its number, as 'Y' exactly when it was accepted and 'N' otherwise |
| KermitProtocol.TakesWhatIsAsked | src/common/cmd_load.c:715-760 | the end, padding and quote characters of a send-init packet are taken from their places in the manual's order, and CR, none and '#' where it ends before them |
| KermitProtocol.OwnOffer | src/common/cmd_load.c:729-788 | what is offered in return: 94 characters, one second, no padding, CR, '#', no prefixes, check type 1, long packets |
| KermitReceiver.Chk1 | src/common/cmd_load.c:585-593 | the check loop computes the check of the characters |
| KermitReceiver.Receiver.SendPacket | src/common/cmd_load.c:596-602 | padding and the frame go out |
| KermitReceiver.Receiver.CloseFrame | src/common/cmd_load.c:603-628 | check, end character and padding make the reply frame |
| KermitReceiver.Receiver.SendSimple | src/common/cmd_load.c:604-628 | acknowledge and negative acknowledge frames |
| KermitReceiver.Receiver.HandleSendPacket | src/common/cmd_load.c:715-799 | takes the sender's parameters and answers with one for each |
| KermitReceiver.Receiver.TakeParms | src/common/cmd_load.c:715-760 | what the sender asked for is remembered |
| KermitReceiver.Receiver.DataSave | src/common/cmd_load.c:680-684 | makes a checkpoint of address and escape |
| KermitReceiver.Receiver.DataRestore | src/common/cmd_load.c:686-690 | goes back to the checkpoint |
| KermitReceiver.Receiver.DataChar | src/common/cmd_load.c:692-707 | one data character, unquoted into memory |
| KermitReceiver.Receiver.BeginPacket | src/common/cmd_load.c:881-898 | the same number rolls back to the checkpoint, a new one makes a checkpoint |
| KermitReceiver.Receiver.ReceiveBody | src/common/cmd_load.c:931-957 | data is stored before its check is known, and the ending is reported |
| KermitReceiver.Receiver.ReceiveData | src/common/cmd_load.c:931-946 | the data characters: stored as they arrive, up to the check, a control character or silence |
| KermitReceiver.Receiver.ReceiveLong | src/common/cmd_load.c:903-930 | the header of an extended-length packet, with its own check |
| KermitReceiver.Receiver.ReceivePacket | src/common/cmd_load.c:865-957 | a packet from its length character on, with its number and effect |
| KermitReceiver.Receiver.PacketError | src/common/cmd_load.c:958-963 | a damaged packet rolls back and is not acknowledged |
| KermitReceiver.Receiver.Accept | src/common/cmd_load.c:964-975 | a complete packet is acknowledged, and a break ends the transfer |
| KermitReceiver.Receiver.TakePacket | src/common/cmd_load.c:865-975 | one packet from its SOH on: read, stored and answered as the protocol machine does |
| KermitReceiver.Receiver.KRecv | src/common/cmd_load.c:802-976 | k_recv behaves as the protocol machine on every input |
| KermitReceiver.Receiver.LoadSerialBin | src/common/cmd_load.c:536-563 | the file is in memory, complete and once, and its size is reported |
| SRecord.DecodeRecord | src/common/s_record.c:30-170 | a written record decodes to its address and data |
| SRecord.BodySum | src/common/cmd_load.c:356-372 | length, address, data and checksum add up to 0xFF modulo 256 |
| SRecord.OneDigitIsChecked | src/common/s_record.c:30-170 | one changed character after the length is reported, exactly unless it stands for the same digit |
| SRecord.TypeIsNotChecked | src/common/s_record.c:54-170 | what a data record reads as with any other type character: no checksum error, except as type 5 |
| SRecord.DataBecomesEnd | src/common/s_record.c:54-170 | with the digit 7 for 3 a data record is an end record |
| SRecord.LengthDamage | src/common/s_record.c:30-170 | what a data record reads as with any other length: refused when too long, cut short when too short, and then reported exactly when the shorter sum is wrong |
| SRecord.LengthDigitCanPass | src/common/s_record.c:30-170 | a record whose damaged length digit is not reported |
| SRecordTypes.DecodeType | src/common/s_record.c:62-170 | records of types 1, 2, 3 and 9, 8, 7 with addresses of two, three and four bytes decode to their address and data |
| SRecordTypes.OneByteLine | src/common/s_record.c:30-170 | the line S1041000AB40 is the byte 0xAB for address 0x1000 |
| SRecordTypes.KnownTypes | src/common/s_record.c:62-122 | the types 4 and 6 and all other characters are refused |
| SRecordTypes.DigitsAlike | src/common/s_record.c:172-198 | small and capital digits are read alike |
| SRecordTypes.JunkIsSkipped | src/common/s_record.c:36-42 | what stands before the first S of a line is skipped |
| SRecordLoad.RecordsTile | src/common/cmd_load.c:345-380 | records of at most sixteen bytes tile the region in order at consecutive addresses |
| SRecordLoad.RecordsOfDump | src/common/cmd_load.c:218-254 | read line by line, with either line end, a dump holds its header, its chunks and its end record |
| SRecordLoad.DumpThenLoad | src/common/cmd_load.c:143-216 | loading a dump restores the region, shifted by the offset, changes nothing else and reports its bounds and size (2 for an empty region) |
| SRecordTypes.FileLoads | src/common/cmd_load.c:143-216 | a file of data records of any types and an end record: every byte is that of the last record which covers it, all others stay, and entry, bounds and size are reported |
| SRecordTypes.RemarksAreSkipped | src/common/cmd_load.c:162-208 | header and count records store nothing |
| SRecordTypes.DamageAborts | src/common/cmd_load.c:156-161 | a damaged record ends the download and leaves what is stored |
| SRecordTypes.InterruptStops | src/common/cmd_load.c:218-254 | a NUL or ^C in a line ends the download |
| SRecordTypes.LongestLine | src/include/s_record.h:111-111 | a line is cut after 516 characters |
| SRecordRun.SrecDecode | src/common/s_record.c:30-170 | the decoder's loops compute the decoding of every line, errors included |
| SRecordRun.ReadFields | src/common/s_record.c:54-170 | address, data and checksum after the length |
| SRecordRun.RecordChecksum | src/common/cmd_load.c:360-369 | the checksum over length, address and data |
| SRecordRun.Board.WriteRecord | src/common/cmd_load.c:387-401 | one record goes out, and an interrupt is noticed after it |
| SRecordRun.Board.SaveData | src/common/cmd_load.c:344-380 | the collecting loop writes the data records of the region |
| SRecordRun.Board.SaveSerial | src/common/cmd_load.c:332-385 | writes the dump of the region; interrupted, its beginning |
| SRecordRun.Board.ReadLine | src/common/cmd_load.c:218-254 | one line of at most 516 characters, or an interrupt |
| SRecordRun.Board.Act | src/common/cmd_load.c:162-208 | what one record does to memory, bounds and outcome |
| SRecordRun.Board.LoadSerial | src/common/cmd_load.c:143-216 | memory and outcome are those of the records of the input, for every input |
| Flash.PlansStayInside | src/common/cmd_flash.c:206-287 | planned sectors lie inside every requested interval exactly when no bank at 0 follows one ending at 0xFFFFFFFF |
| Flash.WrapPairEscapes | src/common/cmd_flash.c:206-287 | with such a pair, planning the upper bank also takes the lower one |
| FlashExact.PlanningIsExact | src/common/cmd_flash.c:206-287 | inside flash on ascending banks, something is planned exactly when the interval is made of whole sectors, and then those sectors |
| FlashExact.NoEndNoPlan | src/common/cmd_flash.c:206-287 | an end that is no sector end is reported |
| FlashExact.RefusalIsExact | src/common/cmd_flash.c:206-287 | an interval inside flash on ascending banks is refused exactly when it is not whole sectors, except one that starts at the last address of a bank and ends inside a sector |
| FlashDriver.FillSectRanges | src/common/cmd_flash.c:206-287 | the nested loops compute the plan and count its sectors |
| FlashExact.CountIsPlanned | src/common/cmd_flash.c:255-284 | the count is the number of planned sectors |
| FlashDriver.FindSectors | src/common/cmd_flash.c:237-253 | the inner loop finds the sectors that start and end the interval |
| FlashDriver.PlanBank | src/common/cmd_flash.c:229-284 | one bank: its range, the next address, or an error |
| FlashDriver.SectRoundb | src/common/cmd_flash.c:110-146 | rounds to the end of the first sector that any bank, known or not, lists for the address, or reports that there is none |
| FlashDriver.FindSector | src/common/cmd_flash.c:120-138 | the first sector of a bank that contains an address |
| FlashDriver.AddrSpec | src/common/cmd_flash.c:165-204 | "start +length" fails exactly when no bank lists its end, and otherwise ends on the end of that sector; on detected banks that is exactly when the end is in flash |
| FlashDriver.PlanLength | src/common/cmd_flash.c:165-204 | on flash that begins on a sector and whose end no unknown bank lists, rounding and planning select exactly the sectors that meet the interval |
| FlashDriver.SectProtect | src/common/cmd_flash.c:645-696 | sets exactly the flags of the planned sectors and no others |
| FlashDriver.ProtectRanges | src/common/cmd_flash.c:659-690 | flags of the planned ranges, bank by bank |
| MemTest.AddressLineTest | src/common/cmd_mem.c:774-823 | passes exactly when offset 0 and the powers of two have cells of their own |
| MemTest.StuckHighTest | src/common/cmd_mem.c:785-804 | passes only if no power of two shares the cell of offset 0, and fails only for decoders that are not injective on the walk |
| MemTest.StuckLowTest | src/common/cmd_mem.c:807-823 | passes only if no two powers of two share a cell, and fails only for such decoders |
| MemTest.CheckWalk | src/common/cmd_mem.c:813-821 | the reading loop over the powers of two |
| MemTest.FillTest | src/common/cmd_mem.c:837-878 | passes exactly when the decoder is injective, and then leaves the region zeroed |
| MemTest.Fill | src/common/cmd_mem.c:842-845 | a shared cell keeps the last number written to it |
| MemTest.CheckAndInvert | src/common/cmd_mem.c:850-862 | passes exactly for injective decoders, and inverts |
| MemTest.CheckAndClear | src/common/cmd_mem.c:867-878 | then passes and zeroes |
| MemTest.TestPass | src/common/cmd_mem.c:774-878 | one pass of both phases |
| MemTest.StuckLineIsCaught | src/common/cmd_mem.c:774-823 | any single stuck address line is caught |
| MemTest.ShortedLinesAreCaught | src/common/cmd_mem.c:774-823 | any two shorted address lines are caught |
| BedbugFields.OperandsSurvive | src/common/bedbug.c:753-841 | for any opcode with disjoint fields, every operand put in is extracted unchanged modulo its width, and silent operands are the opcode's |
| BedbugFields.Asmppc | src/common/bedbug.c:753-841 | the assembler's loop packs the operands in order, or reports the first error |
| BedbugFields.GetOperandValue | src/common/bedbug.c:373-400 | the value of the first operand with the identifier, or none |
| BedbugFields.LookupFinds | src/common/bedbug.c:373-400 | looking up an operand by a distinct identifier extracts that operand |
| BedbugFields.SwapTwice | src/common/bedbug.c:490-510 | a special register number below 1024 survives the exchange of its halves in both directions |
| BedbugWords.HalvesExchanged | src/common/bedbug.c:490-510 | the two five-bit halves of a special register number are exchanged |
| BedbugWords.RegisterNumbers | src/common/bedbug.c:790-835 | lr, ctr and the time base have their numbers, and general registers end at 31 |
| BedbugBranch.AddressRoundTrip | src/common/bedbug.c:261-271 | a packed address prints as the target exactly when the target is a word in reach of the field |
| BedbugBranch.Reach | src/include/bedbug/tables.h:18-30 | the reach is 32 MB for plain and 32 KB for conditional branches, either way |
| BedbugBranch.Decide | src/common/bedbug.c:1160-1213 | the switch on BO is the architecture's branch condition, exactly for encodings without reserved bits |
| BedbugBranch.FindNextAddress | src/common/bedbug.c:1081-1233 | the next address by the architecture's rules for all branch forms, step and next |
| BedbugBranch.FetchCondition | src/common/bedbug.c:1128-1152 | the condition operands and what they decide, or a missing operand |
| BedbugBranch.Continue | src/common/bedbug.c:1216-1233 | the addresses for step and next |
| BedbugBranch.CodesDiffer | src/include/bedbug/tables.h:85-102 | the codes of plain and conditional branches are told apart |
| BedbugWords.ExtractIsShift | src/common/bedbug.c:373-400 | taking an operand out is shifting and masking the instruction as a number |
| BedbugWords.FieldsOfForms | src/include/bedbug/tables.h:17-31 | where the branch forms keep BO, BI, BD, LI, AA and LK |
| BedbugWords.BranchCodes | src/include/bedbug/ppc.h:74-86 | the codes of b and bc as numbers |
| BedbugWords.RegisterCodes | src/include/bedbug/ppc.h:181-189 | the codes of bclr and bcctr as numbers |
| BedbugWords.FormByNumber | src/common/bedbug.c:1092-1160 | bc, b, bcctr and bclr are told apart by the architecture's codes, and nothing else is a branch |
| BedbugWords.RegisterForms | src/common/bedbug.c:1126-1152 | code 16 is the branch to the link register and 528 the one to the count register |
| BedbugWords.RegisterBranch | src/common/bedbug.c:1126-1233 | bclr steps to lr and bcctr to ctr if taken, and on to the next instruction if not, or if a call is stepped over |
| BedbugWords.Conditions | src/common/bedbug.c:1160-1213 | what the values 20, 4, 12, 16 and 18 of BO ask for |
| BedbugWords.ReturnGoesToLink | src/common/bedbug.c:1126-1152 | blr, 0x4E800020, goes to lr and bctr, 0x4E800420, to ctr |
| BedbugBranch.StepsWherePrinted | src/common/bedbug.c:1111-1126 | the stepper goes where the disassembler says a branch leads |
| BedbugBranch.BranchRoundTrip | src/common/bedbug.c:854-918 | b, bl, ba and bla assembled to a target disassemble to it and step to it exactly when it is in reach |
| BedbugBranch.ConditionalRoundTrip | src/common/bedbug.c:854-918 | conditional branches disassemble to their target and step there or on by the condition |
| LogText.LoggedIsTaggedLines | src/common/cmd_log.c:262-319 | one call logs its lines, each tagged exactly if it lacks a tag |
| LogText.LinesRejoin | src/common/cmd_log.c:272-316 | the lines of a text are all of it |
| LogText.LoggedMidLine | src/common/cmd_log.c:262-319 | in the middle of a line only the later lines are tagged |
| LogText.UnchangedExactlyWhenTagged | src/common/cmd_log.c:262-319 | text is logged unchanged exactly when every line has a tag |
| LogText.LoggingIsIdempotent | src/common/cmd_log.c:262-319 | logging what was logged adds nothing |
| LogText.SplitExactly | src/common/cmd_log.c:262-319 | two calls log what one call on the joined text logs exactly when the cut is not inside a tag |
| LogText.RunAllTagged | src/common/cmd_log.c:262-319 | after any run of calls every line of the log is tagged |
| LogText.TagsByTheByte | src/common/cmd_log.c:272-288 | tags from <0> to <7>, the default level 4 and the words of a sentence, character by character |
| LogRing.LogBuffer.OpenLine | src/common/cmd_log.c:272-288 | backs up over logged bytes for a tag, without touching the text to come |
| LogRing.LogBuffer.PutLine | src/common/cmd_log.c:289-311 | copies the staged text up to a line feed |
| LogRing.LogBuffer.LogLine | src/common/cmd_log.c:272-316 | one turn of the outer loop logs a tag and one line |
| LogRing.LogBuffer.Printk | src/common/cmd_log.c:262-319 | logs the tagged text of the call and keeps the open line's level |
| LogRing.LogBuffer.Run | src/common/cmd_log.c:262-319 | the same over any run of calls |
| LogRing.LogBuffer.Put | src/common/cmd_log.c:290-306 | the ring holds the last LOGBUFF_LEN characters, in either header form, across counter wrap-around |
| LogRing.Lockstep | src/common/cmd_log.c:290-306 | after the same stream both header forms describe the same characters |
| LogRing.LogBuffer.Append | src/common/cmd_log.c:201-208 | words logged in separate calls are logged as one sentence |
| LogRing.LogBuffer.Show | src/common/cmd_log.c:213-226 | shows the log until the ring is full, and then nothing |
| LogRing.LogBuffer.Reset | src/common/cmd_log.c:119-141 | clears the header: the log is empty, and the ring's bytes and the level of an open line stay |
| Eeprom.OrOfDisjoint | src/common/cmd_eeprom.c:162-162 | putting in the device address adds it when the bits are disjoint |
| Eeprom.OrBits | src/common/cmd_eeprom.c:162-162 | bit by bit it is the or, disjoint or not |
| Eeprom.ClearIsSeparate | src/common/cmd_eeprom.c:143-162 | with device bits clear of block bits, all offsets lead to different cells |
| Eeprom.ChunksStayInPageExactly | src/common/cmd_eeprom.c:257-272 | write transfers stay in their page exactly for pages of at most 256 bytes or single-byte transfers |
| Eeprom.ChunksAreLongest | src/common/cmd_eeprom.c:241-262 | transfers reach to the end of the page or block, of the driver's buffer or of the range |
| Eeprom.BurstWriteIsFlat | src/common/cmd_eeprom.c:201-212 | inside a page a transfer with a wrapping counter is a flat write |
| Eeprom.ReadBackExactly | src/common/cmd_eeprom.c:127-190 | what was written is read back exactly when the data agrees on shared cells |
| Eeprom.RoundTrip | src/common/cmd_eeprom.c:127-190 | with clear selectors it always is |
| Eeprom.Bus.EepromWrite | src/common/cmd_eeprom.c:201-375 | transfers stay in pages and within the driver's limit, nothing outside the range changes, and without a failure the write is flat |
| Eeprom.ReachedExactly | src/common/cmd_eeprom.c:201-225 | the whole range is gone through exactly unless its end wraps around |
| Eeprom.Bus.WriteStep | src/common/cmd_eeprom.c:221-360 | one transfer keeps the log and the memory as described |
| Eeprom.Bus.EepromRead | src/common/cmd_eeprom.c:127-190 | transfers stay in blocks, and without a failure the buffer holds the range |

## Left out

- Hardware drivers and register access, bootm and the image formats, networking, and the command line around the modelled functions.
- Environment: the console and baud-rate hooks are a verdict given with each request; the CRC update, the board-data updates after a setenv, and getenv_r.
- MTD: the find_dev_and_part lookup, and the listing of the partitions.
- MtdInit.Parser.MtdpartsInit: ends before the last step of mtdparts_init, which makes the partition named by the `partition` variable current or stores that variable again; it changes neither the cache nor the devices.
- MtdRoundTrip.TableRoundTrip: for tables with rising offsets; part_sort_add reverses partitions at equal non-zero offsets, so those are not rebuilt in order. Generated names are not compared.
- MtdTable.ParsedTableOk: for texts of at most 65535 characters, because num_parts is an unsigned short.
- MtdTable.Table.PartDel: excludes deleting a partition at the offset of the current one when that has index 0; the source then follows a null pointer (`MtdTable.TieLosesCurrent`).
- MtdCache.TransparentExactly: for moves of at most the length of the value and values that hold `mtdparts=` only at their beginning; for all others `MtdCache.InnocentExactly` has the condition on the copied text.
- EnvPointer.StaleIsSuffix: for moves of at most the length of the value; beyond it the pointer shows another entry or old bytes.
- EnvPointer.StaleExactly: the same; after larger moves the value can still be shown (`EnvPointer.OldTextIsLeft`).
- FlashDriver.AddrSpec: the two numbers are given; the texts they are read from are not modelled.
- MtdCache.CacheIsTransparent: for runs of calls in harmless environments; `MtdCache.RunTransparentExactly` has the exact condition for all runs.
- MtdNor.PartitionInterval: stated for partitions that do not wrap into a later bank; `MtdNor.PartitionIsErasedExactly` has both directions.
- FlashDriver.PlanLength: no bank of unknown type lists the end of the interval; the source rounds to that bank's sector.
- KermitDelivery.ExactlyOnce: for stretches that keep the download and the quote character; `KermitDelivery.StretchExactly` says what the others do.
- KermitDelivery.StretchExactly: says nothing of a stretch that takes back the packet before; `KermitDelivery.TakesBack` does.
- Kermit: the receiver's state variable, which has no effect on what is stored, and characters above 127 as negative numbers.
- KermitReceiver.Receiver.KRecv: the memory behind the load address is large enough for the input.
- SRecordRun.Board.LoadSerial: memory is RAM, not flash; an exhausted input counts as an interrupt; a data record whose length field is below 5 makes the source copy a negative count, where the model stores nothing.
- MemTest.TestPass: the data-line phase and the address it parks the lines on, and the older quick test.
- BedbugFields.Asmppc: operands are the numbers of their texts; splitting the line, reading numbers and the names of special registers are not modelled, nor is the search of the opcode tables.
- BedbugBranch.FindNextAddress: the opcode of the instruction is given; reading memory is not modelled.
- LogRing.LogBuffer.Printk: the copy printed on the console.
- LogRing: logbuff_init_ptrs, which moves the start of a version 2 log back to the console position of the operating system.
- Eeprom: FRAM and SPI devices and the write-protection registers of the X40430.
- Eeprom.Bus.EepromWrite: for write pages of at most 256 bytes; `Eeprom.ChunksStayInPageExactly` shows that larger ones are misjudged.
