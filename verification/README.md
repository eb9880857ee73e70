# File handle: the pure logic of `Core\File`

`Core\File` (File.php) wraps one file path and mixes filesystem calls with a
small amount of string and integer logic. This project models that logic in
Dafny and proves properties about it. The stored path `$this->file` and the
mode returned by `fileperms()` are plain inputs here. The filesystem calls that
the modelled code depends on become parameters: `@copy` is a function, and
`file_exists`/`@mkdir` act on a set of existing paths. PHP paths are byte
strings and the model uses `string`, one `char` per byte; every delimiter and
word the code looks for (`.`, `/`, `png`, ...) is ASCII, so nothing is lost.

Modules:

- `Strings` (strings.dfy): PHP `explode`/`implode` with a one-character
  delimiter, proved inverse to each other, plus case-sensitive substring
  containment.
- `Naming` (naming.dfy): `getExtension`, `getName` and `newPath`.
- `Bits` (bits.dfy): bit `i` of a natural number, PHP's one-bit mask test,
  toggling a bit, and agreement of low bits modulo `2^k`.
- `Octal` (octal.dfy): `sprintf('%o', n)`, reading octal digits back, and
  `substr($s, -k)` for `k >= 1`.
- `Perms` (perms.dfy): `getOwnerPerms`, `getGroupPerms`, `getUserPerms` and
  `getPerms`. The triplets follow the file-mode string of `ls -l`
  (POSIX.1-2017, utility `ls`, section STDOUT).
- `Dirs` (dirs.dfy): the path splitting in `copyTo` and the prefix-building
  loop of `createDir`.
- `Classify` (classify.dfy): `isImage`, `isText` and `isArchive`.
- `Wrappers` (wrappers.dfy): `Option`.

Two consequences of the code that a reader might not expect:

- `getExtension` and `getName` split the WHOLE stored path on `.`, directories
  included. So `a.d/file` has extension `d/file` (`Naming.ExtensionCrossesDirectories`).
- `substr(sprintf('%o', $m), -4)` renders the bare mode 0o644 as `"644"`. Only a
  mode that includes its file-type bits, such as 0o100644, renders as `"0644"`.
  `Perms.OctalPerms` states both cases.

## Model

| member | source | states |
|---|---|---|
| Strings.ExplodeSpec | File.php:40 | `explode` yields one more piece than there are delimiters. No piece contains the delimiter. Imploding the pieces gives the input back. |
| Strings.ExplodeUnique | File.php:40 | Any delimiter-free split that implodes to `s` is `explode(s)`, so `explode` and `implode` are inverses. |
| Strings.ExplodeConcat | File.php:40 | Exploding `a . d . b` gives the pieces of `a` followed by the pieces of `b`. |
| Naming.GetExtension | File.php:38-46 | The extension has no dot and is a suffix of the path. It is the whole path when the path has no dot. Otherwise the path is some stem, then a dot, then the extension. |
| Naming.ExtensionIsAfterLastDot | File.php:38-46 | The extension is the only dot-free suffix that is either the whole path or preceded by a dot. |
| Naming.ExtensionCrossesDirectories | File.php:40-43 | The split ignores `/`: everything after the last dot is the extension, even across a directory separator. |
| Naming.GetName | File.php:65-69 | The name has no dot and is a prefix of the path. It is the whole path when the path has no dot. Otherwise a dot follows it. |
| Naming.NameIsBeforeFirstDot | File.php:65-69 | The name is the only dot-free prefix that is either the whole path or followed by a dot. |
| Naming.NameFirstExtensionLast | File.php:38-69 | For `a.b.c` the name is `a` and the extension is `c`. For example, `archive.tar.gz` gives `archive` and `gz`. |
| Naming.NewPath | File.php:415-421 | The destination is `name`, a dot and the stored path's extension: it starts with `name.` and is exactly one character longer than `name` plus that extension. Its extension is the stored path's for every `name`, and its name part is that of `name`. |
| Bits.BitIsMaskTest | File.php:238-242 | Bit `i` is set exactly when the one-bit mask test `($m & 2^i)` succeeds. |
| Bits.FlipBits | File.php:233-284 | Toggling bit `i` changes bit `i` and no other bit. |
| Bits.LowBitsAgree | File.php:297-302 | The low `k` bits of two numbers agree exactly when the numbers agree modulo `2^k`. |
| Perms.RenderThenParse | File.php:237-243 | Decoding a rendered triplet gives back the read, write, execute and special bits. |
| Perms.ParseThenRender | File.php:237-243 | Every string that decodes as a triplet is the rendering of the bits it decodes to. |
| Perms.Triplet | File.php:233-284 | The triplet has length 3. Slot 0 is `r` exactly when the read bit is set, else `-`. Slot 1 is `w` exactly when the write bit is set, else `-`. Slot 2 is `x`, the lower-case special letter, the upper-case one or `-`. It shows execute through `x`/lower-case and the special bit through lower-/upper-case. |
| Perms.BitsAreMaskTests | File.php:233-284 | Each class reads the masks that `File.php` tests: owner 0x100/0x80/0x40/0x800, group 0x20/0x10/0x08/0x400, other 0x4/0x2/0x1/0x200. |
| Perms.OwnerPerms | File.php:233-245 | Three characters. Decoding them gives the tests of masks 0x0100, 0x0080, 0x0040 and setuid 0x0800. |
| Perms.GroupPerms | File.php:253-265 | Three characters. Decoding them gives the tests of masks 0x0020, 0x0010, 0x0008 and setgid 0x0400. |
| Perms.UserPerms | File.php:272-284 | Three characters. Decoding them gives the tests of masks 0x0004, 0x0002, 0x0001 and sticky 0x0200. |
| Perms.TripletIgnoresOtherBits | File.php:233-284 | A class's triplet does not change when a bit outside its four is toggled. |
| Perms.TripletSeesItsBits | File.php:233-284 | Toggling any of a class's four bits changes its triplet. |
| Perms.SymbolicPerms | File.php:299-302 | Length 11 with a bar at indexes 3 and 7. The three slices decode to the owner, group and other bits. |
| Perms.SymbolicShowsLowBits | File.php:299-302 | Two modes have the same symbolic form exactly when they agree modulo 0o10000 (the twelve permission and special bits). |
| Perms.OctalPerms | File.php:297 | At most 4 octal digits, and a suffix of the octal rendering of length `min(4, digits)`. There are exactly 4 when the mode is at least 0o1000. Their value is the mode modulo 0o10000. |
| Perms.GetPerms | File.php:292-306 | `hex` defaults to true. With `hex` the result is the suffix of the octal rendering of length `min(4, digits)`, worth the mode's low 12 bits. Otherwise it is the owner, group and other triplets, with a bar at indexes 3 and 7. |
| Perms.PermFormsAgree | File.php:292-306 | For modes with at least four octal digits, the octal and symbolic forms of `getPerms` distinguish exactly the same modes. |
| Perms.FullAccessExample | File.php:287-288 | Mode 0o777 gives `rwx` for all three classes, joined by bars. |
| Perms.RegularFileOctalExample | File.php:297 | Mode 0o100644 gives `0644`. |
| Perms.RegularFileSymbolicExample | File.php:299-302 | Mode 0o100644 gives `rw-`, `r--`, `r--` joined by bars. |
| Perms.SetuidExample | File.php:240-242 | Setuid with owner execute shows `s`, and without it shows `S`. |
| Octal.ToOctal | File.php:297 | `%o` rendering: at least one octal digit, no leading zero, and as many digits as `n` has in base 8. |
| Octal.OctalRoundTrip | File.php:297 | Reading the octal rendering back gives the number. |
| Octal.OctalValueInjective | File.php:297 | Octal strings of equal length and equal value are equal. |
| Octal.Tail | File.php:297 | `substr($s, -k)` for `k >= 1` (File.php uses 4): a suffix of `s` of length the smaller of `k` and the length of `s`, so the whole string when it is shorter than `k`. |
| Octal.TailValue | File.php:297 | The last `k` octal digits of `n` are worth `n` modulo `8^k`. |
| Dirs.DirSegments | File.php:126-128 | `copyTo` passes one segment per `/` in the destination. None contains `/`, and together they form a prefix of the destination. |
| Dirs.CreateDir | File.php:391-406 | The loop visits, in order, the join of the first i+1 segments, each followed by `/`. Afterwards the existing paths are the old ones plus the visited ones. `mkdir` was issued exactly for the visited paths that did not already exist, each at most once and parent first: every issued path is a proper prefix of the next one. |
| Dirs.DirPrefixesOfDestination | File.php:126-131 | There is one prefix per `/`. Each is a proper prefix of the next. Prefix i is the destination up to and including its (i+1)-th `/`. The prefixes are exactly the prefixes of the destination that end with `/`. |
| Dirs.MakeDestinationDirs | File.php:126-131 | The directory half of `copyTo`: afterwards the existing paths are the old ones plus exactly the `/`-terminated prefixes of the destination, and `mkdir` was issued for exactly the missing ones, parent first and without repeats. With no `/` nothing is created. |
| Dirs.CopyTo | File.php:124-137 | Before the copy, the existing paths are the old ones plus exactly the `/`-terminated prefixes of the destination. `mkdir` was issued for the missing ones, parent first and without repeats. The soft result is the copy's result for the stored path ⟶ `newPath(dest)`, with the directories in place. A successful copy adds the new file, and nothing else is added. |
| Classify.PregMatch | File.php:180 | Scanning every start position with every alternative finds a match exactly when one of the words occurs in the subject. |
| Classify.IsImage | File.php:178-185 | True exactly when the path contains `png`, `gif` or `jpg`. |
| Classify.IsText | File.php:192-199 | True exactly when the path contains `txt`, `doc` or `rtf`. |
| Classify.IsArchive | File.php:206-213 | True exactly when the path contains `rar` or `zip`. |
| Classify.CaseSensitive | File.php:180 | `photo.JPG` is not an image, but `photo.jpg` is. |
| Classify.Loose | File.php:208 | `rarely.txt` is an archive, and also a text file. |

## Left out

- Constructor (File.php:19-30): only filesystem existence checks. It also
  tests `is_dir` on the unset field instead of its argument.
- `move` (File.php:104-114): filesystem effects only. It also calls an
  undefined free function `createDir` with the undefined `$dir`.
- `destroy` (File.php:163-171): an `unlink` call. It also writes to an
  undefined `$file->name`, so no live/dead lifecycle can be read from the code.
- `rename` (File.php:146-156): an `@rename` call that throws on failure. Its
  only pure part is the destination `newPath($new)`, which is `Naming.NewPath`.
  It does not rebind the stored path.
- `getSize` and `bytes`/`bytesInKB`/`bytesInMB`/`bytesInGB` (File.php:77-96,
  File.php:347-383): `filesize` plus PHP float division. The default branch
  returns nothing.
- `getDate` (File.php:223-226): depends on time zone and locale formatting.
- `getPath` (File.php:54-57): concatenation with `File.php`'s own
  directory (`__FILE__`).
- `isWritable`, `isExec`, `isReadable` (File.php:314-339): direct
  filesystem access checks.
- The directory separator is fixed to `/`. The code splits on `/` in `copyTo`
  but joins with `DIRECTORY_SEPARATOR` in `createDir`.
- Dirs.CreateDir (and Dirs.MakeDestinationDirs, which calls it): every `@mkdir` is taken to succeed. Failures are silenced in
  the code and not modelled. Paths are compared as strings: `file_exists`
  resolves the path, but the model does not normalise empty, `.` or `..`
  segments. So for `a//f` the model issues a `mkdir` for `a//`, which PHP skips
  once `a/` exists.
- Dirs.CopyTo: the copy is the parameter `copy`, given the stored path, the target
  and the paths that exist. File contents are not modelled. It inherits the
  string comparison of paths from Dirs.CreateDir.
- Perms.GetPerms: `$hex` is a boolean, defaulting to `true` as in the code. The
  code's strict `true === $hex` sends every other value, truthy ones included,
  to the symbolic form.
- Octal.Tail: at `k = 0` it gives the empty string, where PHP's `substr($s, -0)`
  gives the whole string. The code only uses `k = 4`, and `Octal.TailValue`
  needs the empty tail at `k = 0`.
- Modes are unbounded naturals. `fileperms` returns a small non-negative
  integer, and its `false` on failure is not modelled.
