# Debian remote-package adapter, modelled in Dafny

This project models the Debian adapter of the `remote-package` crate
(`src/debian.rs`). A `DebianRemotePackage` holds the control data of a `.deb`
package and answers five queries about it:

- its type, always `Deb`;
- its name and its version, which never fail;
- its architecture, looked up under the `Architecture` control field.
  A missing field fails with `DebianControlFieldNotFound("Architecture")`;
- its iteration (the Debian revision). This is whatever follows the last `-`
  of the version, as `str::rsplit_once('-')` finds it, or nothing when the
  version has no `-`.

A package is built in three library steps, each of which can fail:
parse a reader, open the control archive, and extract the control data.
Any failure is passed back to the caller wrapped as `DebPkgError`.

Files:

- `wrappers.dfy`: the `Option` and `Result` shapes.
- `split.dfy`: module `Split`. It defines `rsplit_once` on strings and
  characterises it: the cut at the last separator is unique and is always the
  one found, and joining then splitting gives the parts back.
- `debian.dfy`: module `Debian`. It holds the control record, the error type,
  construction, the five accessors, and lemmas relating them.

The `RemotePackage` methods implemented in src/debian.rs:64-71 return
`Result` for name and version, and the Debian adapter always returns `Ok`.
`src/lib.rs` declares an older
`RemotePackage` trait, whose `package_name` returns a plain `&str`, and an
error enum without `DebianControlFieldNotFound`. The model follows the
interface that `src/debian.rs` implements, not that declaration.

## Model

| member | source | states |
|---|---|---|
| Split.LastIndexOf | src/debian.rs:86 | Finds the last occurrence of the separator. The result is absent exactly when the character does not occur. Otherwise it is an index holding the character, with no occurrence after it. |
| Split.RSplitOnce | src/debian.rs:86 | `rsplit_once` yields nothing exactly when the separator is absent. Otherwise it yields a prefix and a separator-free suffix whose join with the separator is the input. |
| Split.LastSplitUnique | src/debian.rs:84-86 | A string has only one way to be written as prefix, separator, separator-free suffix. |
| Split.RSplitOnceIsLastSplit | src/debian.rs:84-86 | `rsplit_once` returns a pair exactly when that pair is the cut at the last separator. This holds in both directions, for every string and pair. |
| Split.RSplitOnceOfJoin | src/debian.rs:84-86 | Joining a prefix and a separator-free suffix with the separator, then splitting, returns the prefix and suffix. |
| Debian.Get | src/debian.rs:74-75 | A control-field lookup returns a value exactly when the key is a field, and that value is the field's. |
| Debian.TryFrom | src/debian.rs:48-56 | If opening the control archive fails, that failure is returned. If extraction fails, that failure is returned. Each is wrapped as `DebPkgError` with the library's error unchanged. Construction succeeds exactly when both steps do, and the package then holds exactly the extracted control. |
| Debian.NewFromRead | src/debian.rs:34-39 | A failure to parse the reader is returned as `DebPkgError` with the library's error unchanged. Otherwise the result is that of building from the parsed package. |
| Debian.PackageType | src/debian.rs:60-62 | The type is `Deb` for every package. |
| Debian.PackageName | src/debian.rs:64-67 | The name query never fails and returns exactly the control's name. |
| Debian.PackageVersion | src/debian.rs:69-71 | The version query never fails and returns exactly the control's version. |
| Debian.PackageArch | src/debian.rs:73-77 | The architecture query succeeds exactly when the control has an `Architecture` field, and then returns that field's value. Otherwise it fails with `DebianControlFieldNotFound("Architecture")`. |
| Debian.PackageIteration | src/debian.rs:79-87 | The iteration is absent exactly when the version has no `-`. A present iteration is hyphen-free, is a proper suffix of the version, and directly follows a `-` in it. |
| Debian.IterationIsLastSplit | src/debian.rs:80-86 | Every cut of the version at its last `-` yields that cut's suffix as the iteration. Every present iteration is the suffix of such a cut. |
| Debian.IterationOfRevisedVersion | src/debian.rs:79-86 | A version `upstream-revision` with a hyphen-free revision has that revision as its iteration, whatever hyphens the upstream part holds. |
| Debian.IterationDependsOnlyOnVersion | src/debian.rs:80-86 | Two packages with the same version have the same iteration, whatever their names and other fields, `Architecture` included. |
| Debian.ArchDependsOnlyOnArchitectureField | src/debian.rs:73-77 | Two packages that agree on the `Architecture` field give the same architecture answer. |
| Debian.ConstructionReflectsLibrary | src/debian.rs:34-56 | Building from a reader never reports a missing field; every failure is a library error. A built package reports the name, version and architecture of the control data the library extracted. |
| Debian.IterationExamples | src/debian.rs:80-86 | The iteration of `1.2.3-4` is `4`, of `1.2-3-4` is `4`, and of `1.0-` is the empty string. `1.2.3` has none. |
| Debian.DebianFaqExample | src/debian.rs:96-101 | Control data with name `debian-faq`, version `10.1` and `Architecture: all` gives type `Deb`, that name, version and architecture, and no iteration. The test checks only the name (line 101). The version and architecture are read from the package file name `debian-faq_10.1_all.deb` (line 98), and "no iteration" follows from the version. |

## Left out

- `new_from_url` (src/debian.rs:21-30) performs a blocking HTTP request. Network I/O is outside the model, and so is the `HTTPError` variant it alone produces.
- The `debpkg` library's internals are left out: `DebPkg::parse`, `control()` and `Control::extract` do ar/tar/control-file parsing inside the external `debpkg` crate. Each is an abstract function of a `DebLibrary` value that either gives a result or a `LibError`.
- `control()` takes the package handle mutably and reads on from the stream. The model treats it as a pure function of the handle.
- Debian.Get: `Control::get` is modelled as lookup on the exact key. Whether `debpkg` matches keys without regard to case is decided inside that external crate and is not modelled.
- Borrowing is not modelled: accessors return strings by value, not `&str` views into the control data.
- src/rpm.rs is not part of this model. Its adapter only delegates `package_name` to the `fez` library's header. Only the `Rpm` tag of the package type appears.
- src/debian.rs:60-61 uses `crate::RemotePackageType` and names only `Deb`. The model assumes a second variant, `Rpm`, for the crate's RPM adapter.
- The control record keeps name and version apart from `fields`, and nothing ties them to the `Package` or `Version` entries of that map. In a real control file they are the same fields. No contract here relies on either choice.
- The tests that download packages over the network (src/debian.rs:94-102) are not modelled. Their one check, the package name (line 101), appears in `Debian.DebianFaqExample`, stated over given control data. That lemma also uses the version and architecture in the package file name at line 98.
