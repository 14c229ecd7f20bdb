# Photo gallery scanner: metadata decision model

This project models the decision logic of `scan_photos.py`, a script that scans a
directory of photos and writes a JSON manifest for a map-based gallery. For each
directory entry, the script:

1. accepts the entry only when its extension, as `os.path.splitext` computes it
   and lower-cased, is `.jpg` or `.jpeg`;
2. reads the capture date (`DateTimeOriginal`) and the GPS block from the Exif
   data. It converts GPSLatitude/GPSLongitude from degrees, minutes and seconds
   to signed decimal degrees, using the GPSLatitudeRef/GPSLongitudeRef
   hemisphere letters (GPS tags 1 to 4 of Exif 2.3, CIPA DC-008, section 4.6.6);
3. applies the manual override table, keyed by bare file name. A row replaces
   the coordinates and supplies a date when the Exif one is missing or empty;
4. emits a record `(filename, date, lat, lon, thumb)` only when both
   coordinates are known, with `"Unknown Date"` standing in for a missing date;
5. sorts the records in descending order of `(date, filename)`, comparing both
   as Python strings.

Modules, one per step: `Gps` (conversion and GPS tags), `Exif` (the reader
with its exception path), `Extension` (splitext and the file test), `Manual`
(the table and the merge), `Photos` (the per-entry record), `Ordering` (Python
string order, the sort, uniqueness of the sorted arrangement) and `Scan` (the
loop over a listing). `Nullable` holds `Option`, which stands for Python's `None`.

Modelling choices:
- The image library is an input. `Exif.ImageRead` says whether the file could
  be opened and what Exif block it carried. `Exif.ExifBlock` holds the two
  entries the script looks up by name.
- GPS tag values are tuples of exact reals or text (`Gps.GpsValue`). A value
  the conversion cannot index or add raises in the script. The model returns
  `None` from `Gps.FromDms` for it, and the whole read fails (`Exif.ReadFailed`),
  date included, as in the `except` branch.
- The thumbnail generator is an input. `Photos.PhotoFile.thumbnail` is the path
  it returns, or `None`.
- A directory listing is a sequence of `Photos.PhotoFile`. `Scan.DistinctFiles`
  states that no two entries share a name, as `os.listdir` guarantees.
- `Scan.Scan` takes the override table as a parameter. The script uses the
  shipped table `Manual.ManualData`.

The script lists a single directory with `os.listdir` and does not walk
subdirectories. It looks the override table up by bare file name only.

## Model

| member | source | states |
|---|---|---|
| Gps.DecimalFromDms | scan_photos.py:14-24 | the result times 3600 is the angle in seconds of arc, 3600·d + 60·m + s, negated exactly when the ref is `S` or `W` |
| Gps.SouthWestNegates | scan_photos.py:21-24 | an `S`/`W` ref gives the exact negation of what any other ref (including `N`, `E` or unexpected values) gives for the same components |
| Gps.SignFollowsHemisphere | scan_photos.py:19-24 | with non-negative components the result is <= 0 for `S`/`W` and >= 0 otherwise, and it is zero only for the zero angle |
| Gps.DmsRoundTrip | scan_photos.py:14-24 | splitting a signed angle into whole degrees, whole minutes and seconds with an `N`/`S` ref and converting back yields the angle |
| Gps.FromDms | scan_photos.py:15-19 | the conversion succeeds exactly when the value is a tuple of at least three numbers; otherwise indexing or adding raises |
| Gps.ReadGps | scan_photos.py:40-53 | both coordinates are set or neither; they are set iff tags 2, 1, 4, 3 are all present and non-empty and the positions convert; no or empty GPS block gives neither; malformed positions take the exception path |
| Exif.ReadExif | scan_photos.py:26-57 | the read gives `(None, None)`, dropping the date, exactly when the image cannot be opened or its position tags are present but malformed; otherwise the date is the Exif date (also when the GPS block is absent, empty or lacks a tag), and the coordinates are set iff the four GPS tags are present and convertible, both or neither, with the converted tag values |
| Exif.InitialCoords | scan_photos.py:110 | the starting coordinates are `(None, None)` when the read failed or the pair has no latitude, and are the reader's pair unchanged when its latitude is set |
| Exif.InitialCoordsOfRead | scan_photos.py:107-110 | a failed read is treated exactly like no coordinates, and a successful read's pair passes through unchanged |
| Extension.LastIndexOf | scan_photos.py:104 | the last index holding the character, or -1, with no occurrence after it (the `rfind` inside `splitext`) |
| Extension.HasNonDot | scan_photos.py:104 | the leading-dot scan of `splitext` is true iff some character between the separator and the dot is not a dot |
| Extension.SplitExt | scan_photos.py:104 | root and extension concatenate to the name; the extension is empty or starts with its only dot and holds no separator; a non-empty extension follows a root whose last component is not all dots, so leading dots stay in the root; an empty extension means no dot after a named stem is the last dot of the final component |
| Extension.Lower | scan_photos.py:104 | the lower-cased name has the same length, each character ASCII-lower-cased |
| Extension.SupportedIff | scan_photos.py:104-105 | the lower-cased `splitext` extension is `.jpg` or `.jpeg` iff the name ends, ignoring case, in one of them after a stem whose final component is not all dots |
| Extension.IsSupported | scan_photos.py:104-105 | the file test accepts a name iff it ends, ignoring case, in `.jpg` or `.jpeg` after a stem whose final component is not all dots |
| Extension.UpperCaseAccepted | scan_photos.py:104-105 | `IMG_0001.JPG` is accepted: the test ignores case |
| Extension.DotFileAccepted | scan_photos.py:104-105 | `.hidden.jpeg` is accepted: only leading dots are skipped |
| Extension.BareExtensionRejected | scan_photos.py:104-105 | `.jpg` and `..jpg` are rejected: leading dots do not start an extension |
| Extension.InnerExtensionRejected | scan_photos.py:104-105 | `a.jpg.txt` is rejected: only the last dot counts |
| Manual.ApplyOverride | scan_photos.py:112-120 | a file without a row keeps its values; a row replaces both coordinates unconditionally; it supplies the date only when the Exif date is `None` or empty |
| Manual.OverrideIdempotent | scan_photos.py:112-120 | applying the table a second time changes nothing |
| Manual.ShippedRowsHaveDates | scan_photos.py:85-96 | every file with a row in the shipped table ends up with a non-empty date |
| Photos.FinalMetadata | scan_photos.py:107-120 | after the read and the override both coordinates are set or neither; a table row supplies them, and supplies the date only when the Exif date is missing or empty; without a row the Exif date and pair stand, and a failed read counts as no coordinates |
| Photos.MakeRecord | scan_photos.py:122-132 | a record exists iff both final coordinates are set; it has the entry's file name, the final coordinates, the effective date or `Unknown Date` (never empty), and the thumbnail path when it is non-empty |
| Photos.Emit | scan_photos.py:104-135 | an entry with an unsupported extension yields nothing; a supported entry yields exactly the record `MakeRecord` describes; a record is named after its entry |
| Photos.RowAlwaysEmitted | scan_photos.py:113-122 | a supported file with a table row is always emitted at the table's coordinates, whatever its Exif block says |
| Photos.NoRowUsesExif | scan_photos.py:107-122 | without a row, a supported file is emitted iff its Exif read has coordinates, and the record carries them |
| Photos.UnreadableWithoutRowSkipped | scan_photos.py:55-57 | an unreadable file without a table row is skipped |
| Ordering.StrLtIsLexicographic | scan_photos.py:138 | `StrLt`, Python's string `<`, holds iff the first string is a proper prefix of the second or has the smaller code point where they first differ |
| Ordering.StrLtIrreflexive | scan_photos.py:138 | Python string `<` is irreflexive |
| Ordering.StrLtTransitive | scan_photos.py:138 | Python string `<` is transitive |
| Ordering.StrLtTotal | scan_photos.py:138 | two different strings are ordered one way or the other |
| Ordering.StrLtAsymmetric | scan_photos.py:138 | Python string `<` is asymmetric |
| Ordering.KeyLt | scan_photos.py:138 | tuple `<` on `(date, filename)`: the dates decide when they differ, the file names otherwise, and equal tuples are not ordered |
| Ordering.KeyLtAsymmetric | scan_photos.py:138 | `<` on the `(date, filename)` tuples is asymmetric |
| Ordering.KeyLtTransitive | scan_photos.py:138 | `<` on the tuples is transitive |
| Ordering.KeyLtTotal | scan_photos.py:138 | records with different tuples are ordered one way or the other |
| Ordering.KeyGeTransitive | scan_photos.py:138 | the non-increasing relation is transitive |
| Ordering.Insert | scan_photos.py:138 | inserting a record adds exactly that record to the multiset |
| Ordering.InsertSorted | scan_photos.py:138 | inserting into a non-increasing sequence keeps it non-increasing |
| Ordering.Sort | scan_photos.py:138 | the result is non-increasing in `(date, filename)` and is a permutation of the input |
| Ordering.SortedPermutationUnique | scan_photos.py:138 | when a file name identifies its record, two non-increasing permutations of the same records are equal |
| Ordering.SortIsUnique | scan_photos.py:138 | when records sharing a file name are equal, any non-increasing permutation of the input equals the sort's result |
| Ordering.StrictWhenDistinct | scan_photos.py:138 | with distinct file names a non-increasing sequence is strictly decreasing |
| Scan.Collect | scan_photos.py:103-135 | the loop collects no more records than there are entries; which records it collects is stated by the three lemmas below |
| Scan.CollectSound | scan_photos.py:103-135 | every collected record comes from an entry of the listing |
| Scan.CollectComplete | scan_photos.py:103-135 | every entry that yields a record contributes it |
| Scan.CollectDistinct | scan_photos.py:103-135 | distinct entries yield records with distinct file names |
| Scan.SortedCollection | scan_photos.py:103-138 | the sorted records number no more than the entries, each comes from an entry, every emitted record appears, and for a listing with distinct names they strictly decrease in `(date, filename)` |
| Scan.Scan | scan_photos.py:98-138 | the manifest is non-increasing, holds exactly the records the entries emit, and is strictly decreasing in `(date, filename)` for a listing |
| Scan.ScanIsTheDescendingOrder | scan_photos.py:138 | for a listing, the manifest is the only non-increasing arrangement of the emitted records |

## Left out

- Directory listing (`os.listdir`): the listing is an input sequence of entries.
- Opening images, decoding Exif and mapping tag numbers to names through `ExifTags.TAGS` are image-library behaviour. Their outcome is an input (`Exif.ImageRead`).
- Thumbnail generation covers directory creation, the cache check by file existence, mode conversion, resizing and JPEG encoding. All of it is filesystem and imaging I/O. Its result is an input path.
- Writing the JSON file and all console logging are output plumbing.
- Floating point: the conversion is over exact reals. Rounding in the float division and `IFDRational` behaviour (such as a zero denominator) are not modelled.
- Gps.DecimalFromDms: states the exact-real value; Python's float result is only an approximation of it.
- Extension.Lower: folds ASCII letters only, where Python's `str.lower` folds all of Unicode. No non-ASCII character lower-cases to `.`, `j`, `p`, `e` or `g`, so the accepted set of names is the same.
- Extension.SplitExt: models the POSIX `os.path.splitext` (separator `/`). The Windows variant, with `\` and drive letters, is not modelled.
- Sort stability: Python's stable sort matters only for equal `(date, filename)` tuples, which a listing with distinct names cannot produce. `Ordering.Insert` is stable, but no lemma states it.
- Exif values of unexpected types under `DateTimeOriginal` or `GPSInfo` (anything other than a string or a tag map) are not modelled.
