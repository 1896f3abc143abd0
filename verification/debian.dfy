/**
 The Debian package adapter: a read-only view over the control data of a
 `.deb` package. The package's name, version and extra control fields come
 from the `debpkg` library, which this module treats as abstract steps.
 */
module Debian {
  import opened Wrappers
  import opened Split

  /** The parsed control file: the `Package` and `Version` values the library
      always provides, and the key/value fields looked up by name. */
  datatype Control = Control(name: string, version: string, fields: map<string, string>)

  /** `Control::get`: the value stored under exactly `key`, if any. */
  function Get(c: Control, key: string): (r: Option<string>)
    ensures r.Some? <==> key in c.fields
    ensures r.Some? ==> r.value == c.fields[key]
  {
    if key in c.fields then Some(c.fields[key]) else None
  }

  /** An error raised inside the `debpkg` library; its contents are opaque here. */
  datatype LibError = LibError(detail: string)

  /** The crate's error type, as the Debian adapter uses it. */
  datatype PkgError =
    | DebPkgError(cause: LibError)
    | DebianControlFieldNotFound(field: string)

  /** Which packaging format a remote package is. */
  datatype RemotePackageType = Deb | Rpm

  /** A Debian package, known only through its control data. */
  datatype DebianRemotePackage = DebianRemotePackage(control: Control)

  /** The control field that holds the architecture. */
  const ArchitectureField: string := "Architecture"

  /** Separates `upstream_version` from `debian_revision`. */
  const RevisionSeparator: char := '-'

  /** The three library steps used to build a package: parsing a reader into a
      package handle, opening the handle's control archive, and extracting the
      control data from that archive. Each either succeeds or raises a library
      error. */
  datatype DebLibrary<-R, !P, !A> = DebLibrary(
    parse: R -> Result<P, LibError>,
    control: P -> Result<A, LibError>,
    extract: A -> Result<Control, LibError>)

  /** `TryFrom<DebPkg>`: open the control archive, extract the control data
      and keep it; a failure of either step is returned, wrapped, unchanged. */
  function TryFrom<R, P, A>(lib: DebLibrary<R, P, A>, pkg: P): (r: Result<DebianRemotePackage, PkgError>)
    ensures var archive := lib.control(pkg);
      archive.Failure? ==> r == Failure(DebPkgError(archive.error))
    ensures var archive := lib.control(pkg);
      archive.Success? && lib.extract(archive.value).Failure? ==>
        r == Failure(DebPkgError(lib.extract(archive.value).error))
    ensures var archive := lib.control(pkg);
      r.Success? <==> archive.Success? && lib.extract(archive.value).Success?
    ensures r.Success? ==> r.value.control == lib.extract(lib.control(pkg).value).value
  {
    match lib.control(pkg)
    case Failure(e) => Failure(DebPkgError(e))
    case Success(archive) =>
      match lib.extract(archive)
      case Failure(e) => Failure(DebPkgError(e))
      case Success(control) => Success(DebianRemotePackage(control))
  }

  /** `new_from_read`: parse the reader, then build the package from the handle;
      a parse failure is returned, wrapped, unchanged. */
  function NewFromRead<R, P, A>(lib: DebLibrary<R, P, A>, reader: R): (r: Result<DebianRemotePackage, PkgError>)
    ensures lib.parse(reader).Failure? ==> r == Failure(DebPkgError(lib.parse(reader).error))
    ensures lib.parse(reader).Success? ==> r == TryFrom(lib, lib.parse(reader).value)
  {
    match lib.parse(reader)
    case Failure(e) => Failure(DebPkgError(e))
    case Success(pkg) => TryFrom(lib, pkg)
  }

  /** `package_type`. */
  function PackageType(p: DebianRemotePackage): (t: RemotePackageType)
    ensures t == Deb
  {
    Deb
  }

  /** `package_name`: never fails. */
  function PackageName(p: DebianRemotePackage): (r: Result<string, PkgError>)
    ensures r == Success(p.control.name)
  {
    Success(p.control.name)
  }

  /** `package_version`: never fails. */
  function PackageVersion(p: DebianRemotePackage): (r: Result<string, PkgError>)
    ensures r == Success(p.control.version)
  {
    Success(p.control.version)
  }

  /** `package_arch`: the `Architecture` field, or an error naming that field. */
  function PackageArch(p: DebianRemotePackage): (r: Result<string, PkgError>)
    ensures r.Success? <==> ArchitectureField in p.control.fields
    ensures r.Success? ==> r.value == p.control.fields[ArchitectureField]
    ensures r.Failure? ==> r.error == DebianControlFieldNotFound("Architecture")
  {
    match Get(p.control, ArchitectureField)
    case Some(arch) => Success(arch)
    case None => Failure(DebianControlFieldNotFound(ArchitectureField))
  }

  /** `package_iteration`: the `debian_revision`, i.e. whatever follows the
      last hyphen of the version, if the version has a hyphen. */
  function PackageIteration(p: DebianRemotePackage): (r: Option<string>)
    ensures r.None? <==> RevisionSeparator !in p.control.version
    ensures r.Some? ==> RevisionSeparator !in r.value
    ensures r.Some? ==>
      var v := p.control.version;
      |r.value| < |v| && v[|v| - |r.value| - 1] == RevisionSeparator && v[|v| - |r.value|..] == r.value
  {
    match RSplitOnce(p.control.version, RevisionSeparator)
    case None => None
    case Some((upstream, revision)) =>
      var v := p.control.version;
      assert v == upstream + [RevisionSeparator] + revision;
      assert v[|v| - |revision|..] == revision;
      Some(revision)
  }

  /** The iteration is the suffix of a cut of the version at its last hyphen,
      and every such cut is found. */
  lemma {:induction false} IterationIsLastSplit(p: DebianRemotePackage, upstream: string, revision: string)
    ensures IsLastSplit(p.control.version, RevisionSeparator, upstream, revision) ==>
      PackageIteration(p) == Some(revision)
    ensures PackageIteration(p).Some? ==>
      var v := p.control.version;
      IsLastSplit(v, RevisionSeparator, v[..|v| - |PackageIteration(p).value| - 1], PackageIteration(p).value)
  {
    RSplitOnceIsLastSplit(p.control.version, RevisionSeparator, upstream, revision);
    var split := RSplitOnce(p.control.version, RevisionSeparator);
    if split.Some? {
      var v := p.control.version;
      assert |split.value.0| == |v| - |split.value.1| - 1;
      assert v[..|split.value.0|] == split.value.0;
    }
  }

  /** A version written `upstream-revision`, with a hyphen-free revision,
      reports that revision as its iteration; hyphens inside the upstream part
      do not matter. */
  lemma {:induction false} IterationOfRevisedVersion(c: Control, upstream: string, revision: string)
    requires RevisionSeparator !in revision
    requires c.version == upstream + [RevisionSeparator] + revision
    ensures PackageIteration(DebianRemotePackage(c)) == Some(revision)
  {
    RSplitOnceOfJoin(upstream, RevisionSeparator, revision);
  }

  /** The iteration depends on the version alone: the name and the other
      control fields, `Architecture` included, play no part. */
  lemma IterationDependsOnlyOnVersion(p: DebianRemotePackage, q: DebianRemotePackage)
    requires p.control.version == q.control.version
    ensures PackageIteration(p) == PackageIteration(q)
  {
  }

  /** The architecture depends on the `Architecture` field alone. */
  lemma ArchDependsOnlyOnArchitectureField(p: DebianRemotePackage, q: DebianRemotePackage)
    requires ArchitectureField in p.control.fields <==> ArchitectureField in q.control.fields
    requires ArchitectureField in p.control.fields ==>
      p.control.fields[ArchitectureField] == q.control.fields[ArchitectureField]
    ensures PackageArch(p) == PackageArch(q)
  {
  }

  /** Building a package never reports a missing field: every construction
      failure is a library error, and a built package answers every query from
      the control data the library extracted. */
  lemma ConstructionReflectsLibrary<R, P, A>(lib: DebLibrary<R, P, A>, reader: R)
    ensures NewFromRead(lib, reader).Failure? ==> NewFromRead(lib, reader).error.DebPkgError?
    ensures NewFromRead(lib, reader).Success? ==>
      var c := lib.extract(lib.control(lib.parse(reader).value).value).value;
      var p := NewFromRead(lib, reader).value;
      && PackageName(p) == Success(c.name)
      && PackageVersion(p) == Success(c.version)
      && PackageArch(p) == (if ArchitectureField in c.fields then Success(c.fields[ArchitectureField])
                            else Failure(DebianControlFieldNotFound(ArchitectureField)))
  {
  }

  /** Sample versions: the cut is at the last hyphen, a trailing hyphen gives an
      empty revision, and a version without hyphen has no iteration. */
  lemma IterationExamples(fields: map<string, string>)
    ensures PackageIteration(DebianRemotePackage(Control("pkg", "1.2.3-4", fields))) == Some("4")
    ensures PackageIteration(DebianRemotePackage(Control("pkg", "1.2-3-4", fields))) == Some("4")
    ensures PackageIteration(DebianRemotePackage(Control("pkg", "1.0-", fields))) == Some("")
    ensures PackageIteration(DebianRemotePackage(Control("pkg", "1.2.3", fields))) == None
  {
    IterationOfRevisedVersion(Control("pkg", "1.2.3-4", fields), "1.2.3", "4");
    IterationOfRevisedVersion(Control("pkg", "1.2-3-4", fields), "1.2-3", "4");
    IterationOfRevisedVersion(Control("pkg", "1.0-", fields), "1.0", "");
  }

  /** The `debian-faq` package: name, version and architecture come straight
      from the control data, and the hyphen-free version has no iteration. */
  lemma DebianFaqExample()
    ensures var p := DebianRemotePackage(Control("debian-faq", "10.1", map["Architecture" := "all"]));
      && PackageType(p) == Deb
      && PackageName(p) == Success("debian-faq")
      && PackageVersion(p) == Success("10.1")
      && PackageArch(p) == Success("all")
      && PackageIteration(p) == None
  {
  }
}
