# rcpputils: library path resolution and extension stripping, in Dafny

This project models the two pieces of `rcpputils` that hold logic of their own.

- `find_library_path` (module `FindLibrary`) resolves a bare library name such as `foo`. It builds the platform's file name, `prefix + name + extension` (`libfoo.so`, `libfoo.dylib` or `foo.dll`). It then walks the dynamic-linker search path in order and returns the first directory/file-name join that the file probe accepts. When no entry matches it returns `""`. The search path is the platform's variable (`LD_LIBRARY_PATH`, `DYLD_LIBRARY_PATH` or `PATH`) split at its separator. On Windows the current directory, when it can be obtained, is put in front of that list.
- `fs::remove_extension` (module `FilesystemHelper`) cuts a path at its last `'.'` up to `n_times` times. It stops early once no dot is left.

Both are written the way the C++ is written: as methods with loops and early returns (`FindLibrary.SearchDirectories`, which `FindLibrary.FindLibraryPath` calls, and `FilesystemHelper.RemoveExtension`). Each method is proved equal to a recursive specification function (`Resolve`/`FirstHit`, `RemoveExtensionSpec`). The lemmas state what the code promises about those functions.

The compile-time `#ifdef` choice becomes a `Platform` argument: `Windows`, `Apple`, or `Other` for the `#else` branch. The operating-system services become explicit inputs:
- the value of the search-path variable, as a string;
- the current directory, as an `Option<string>`: `None` when `GetCurrentDirectoryA` returns 0, otherwise `Some` of whatever the buffer holds;
- the splitter, the path join and the regular-file probe, as function parameters.

A path is treated as its string. The C++ converts the path to a string, cuts it and builds a new path from the piece. On POSIX targets none of that changes the characters; the Windows conversion is listed under "Left out".

`remove_extension` takes a C++ `int` count that defaults to 1; the model keeps that default (`nTimes: int := 1`) and uses an unbounded `int`. The loop counter stays below the count, so it never overflows and nothing is lost.

## Model

| member | source | states |
|---|---|---|
| `FilesystemHelper.LastDot` | include/rcpputils/filesystem_helper.hpp:177-178 | The search for the last `'.'` gives no position exactly when the string has no dot. Otherwise it gives an in-range index holding a dot, with no dot after it. |
| `FilesystemHelper.RemoveExtensionSpec` | include/rcpputils/filesystem_helper.hpp:172-184 | The result is never longer than the input. With a count of at least one and a dot in the input, it is strictly shorter. |
| `FilesystemHelper.RemoveExtensionPrefix` | include/rcpputils/filesystem_helper.hpp:174-183 | The result is always a prefix of the input. |
| `FilesystemHelper.RemoveExtensionStep` | include/rcpputils/filesystem_helper.hpp:175-181 | With a count of at least one and a dot present, the result is that of the text before the last dot with one step fewer. |
| `FilesystemHelper.RemoveExtension` | include/rcpputils/filesystem_helper.hpp:172-184 | The loop with its early return computes `RemoveExtensionSpec`; the count defaults to 1, so a call without one strips at most one extension. Its result is a prefix of the input. For a non-negative count `n`, a path with `k` dots keeps `max(k - n, 0)` of them. |
| `FilesystemHelper.RemoveExtensionNonPositive` | include/rcpputils/filesystem_helper.hpp:174-183 | A count of zero or less returns the path unchanged. |
| `FilesystemHelper.RemoveExtensionNoDot` | include/rcpputils/filesystem_helper.hpp:177-180 | A path with no dot is returned unchanged for every count. |
| `FilesystemHelper.RemoveExtensionOneStep` | include/rcpputils/filesystem_helper.hpp:177-181 | One step yields exactly the text before the last dot. The dot and everything after it are removed, and nothing else. |
| `FilesystemHelper.CutAtLastDot` | include/rcpputils/filesystem_helper.hpp:177-181 | Cutting at the last dot lowers the dot count by exactly one. |
| `FilesystemHelper.RemoveExtensionDots` | include/rcpputils/filesystem_helper.hpp:175-182 | A path with `k` dots keeps `max(k - n, 0)` dots after `n` steps. |
| `FilesystemHelper.RemoveExtensionCompose` | include/rcpputils/filesystem_helper.hpp:175-182 | For non-negative `a` and `b`, stripping `a` extensions and then `b` is the same as stripping `a + b`. |
| `FilesystemHelper.RemoveExtensionDirectoryDot` | include/rcpputils/filesystem_helper.hpp:166-181 | The extension starts at the last dot anywhere in the string. A tail holding directory separators is dropped whole. |
| `FilesystemHelper.RemoveExtensionDirectoryExample` | include/rcpputils/filesystem_helper.hpp:166-181 | `"a.d/file"` with one step becomes `"a"`. |
| `FilesystemHelper.LastDotAppend` | include/rcpputils/filesystem_helper.hpp:177 | If the second part of a concatenation holds a dot, the last dot of the whole is the second part's last dot, offset by the first part's length. |
| `FindLibrary.FirstHit` | src/find_library.cpp:82-87 | The index found is the smallest one whose probe succeeds. No index is found exactly when no probe succeeds. |
| `FindLibrary.Resolve` | src/find_library.cpp:82-88 | A non-empty result is one of the directory/file-name joins, and it satisfies the file probe. |
| `FindLibrary.ProbeCount` | src/find_library.cpp:82-87 | The number of probes is at most the number of entries. When it is smaller, the last probe succeeded. Every probe before the last one failed. |
| `FindLibrary.SearchDirectories` | src/find_library.cpp:82-88 | The loop with its early return computes `Resolve`. Its probes are the joins of the first `i + 1` entries on a hit at `i`, and of all entries otherwise, in order. |
| `FindLibrary.FindLibraryPath` | src/find_library.cpp:61-89 | The method returns `Resolve` over the platform's search list and candidate file name. It probes the same paths as `SearchDirectories` over that list. |
| `FindLibrary.PlatformsDiffer` | src/find_library.cpp:42-57 | Only Windows has an empty prefix and the `';'` separator. The three platforms' extensions differ, and so do their variable names. Each extension is one dot followed by a dot-free suffix. |
| `FindLibrary.CandidateFilenameShape` | src/find_library.cpp:79-80 | The probed file name is the prefix, then the library name, then the extension. |
| `FindLibrary.CandidateFilenameInjective` | src/find_library.cpp:79-80 | Different library names give different file names. |
| `FindLibrary.CandidateFilenameExtension` | src/find_library.cpp:79-80 | Removing one extension from the candidate file name leaves `prefix + name`, whether or not the name has dots. |
| `FindLibrary.CandidateFilenameExamples` | src/find_library.cpp:42-80 | `foo` gives `libfoo.so`, `libfoo.dylib` and `foo.dll`. An empty name gives `lib.so`. |
| `FindLibrary.NonWindowsSearchPaths` | src/find_library.cpp:63-64 | Outside Windows the search list is exactly the variable split at `':'`. Nothing is added, and the current directory is ignored. |
| `FindLibrary.WindowsSearchPaths` | src/find_library.cpp:63-77 | On Windows an obtained current directory is at index 0, followed by the variable split at `';'`. If it is not obtained, the list is the split variable alone. |
| `FindLibrary.NotFoundIffEmpty` | src/find_library.cpp:82-88 | If a join is never empty, the result is `""` exactly when no entry's probe succeeds. |
| `FindLibrary.FirstMatchWins` | src/find_library.cpp:82-86 | If entry `i` passes the probe and no earlier entry does, the result is entry `i`'s join. |
| `FindLibrary.LaterEntriesIgnored` | src/find_library.cpp:82-87 | Replacing the entries after the first match leaves the result unchanged. |
| `FindLibrary.WindowsCwdFirst` | src/find_library.cpp:66-87 | On Windows a library in the obtained current directory is found there, whatever the variable holds. |
| `FindLibrary.NonWindowsEmptyPath` | src/find_library.cpp:63-88 | Outside Windows, a variable that splits into no entries yields `""`. |
| `FindLibrary.OnlyProbedPathsMatter` | src/find_library.cpp:82-87 | Two probes that agree on the entries up to and including the first hit give the same answer. The function keeps no state, so equal inputs give equal results. |

## Left out

- The other `fs` wrappers (`is_regular_file`, `is_directory`, `file_size`, `exists`, `temp_directory_path`, `current_path`, `create_directories`, `remove`, `remove_all`) are not modelled. Each is a single call into `std::filesystem` that performs filesystem I/O and has no logic of its own.
- `get_env_var` reads the environment. The variable's value is a parameter instead.
- `GetCurrentDirectoryA` and the manual `new[]`/`delete[]` buffer are not modelled. The current directory is an `Option<string>` input. The source takes any non-zero return of the second `GetCurrentDirectoryA` call (find_library.cpp:71) as success, including the "buffer too small" return that reports a required size and leaves the buffer unfilled; the source then inserts that buffer's contents. The model covers this case because `Some` may carry any string. Allocation failure is not modelled, because `new[]` does not return null.
- `rcpputils::split` is not part of this model. It is a function parameter, with no assumption about empty entries.
- `rcutils_is_file` is a filesystem probe. It is an uninterpreted `string -> bool` parameter.
- `std::filesystem::path` operator `/` is an uninterpreted join parameter. Its handling of root names, absolute right-hand sides and separators is not modelled. The "`""` exactly when nothing is found" lemma therefore assumes that a join never yields the empty string.
- The compile-time `#ifdef` selection becomes a `Platform` argument.
- `FindLibrary.FindLibraryPath` and `FindLibrary.SearchDirectories` record the probed paths in a ghost out-parameter. The source does not keep that list; it exists only to state which entries are probed.
- The header's own note (filesystem_helper.hpp:35-38) calls its functions a thin wrapper around a filesystem library. `remove_extension` is not a thin wrapper: it has its own loop over the last dot, and the model follows that loop.
- `FilesystemHelper.RemoveExtension` works on strings and has no error path. On Windows, `path::string()` (filesystem_helper.hpp:176) converts the native wide path to the narrow code page. That conversion can throw `std::system_error` or lose characters the code page lacks, and line 181 rebuilds the path from the narrow string. Neither the exception nor the character loss is modelled. On POSIX the conversion is the identity.
