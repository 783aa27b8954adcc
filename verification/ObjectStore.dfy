/**
  The three storage objects that one module version can occupy, and the contract of the storage
  interface: exclusive creation, deletion and lookup, each atomic on its own.
 */
module ObjectStore {
  import opened Basics

  /** `pseudo` records the verdict of module.IsPseudoVersion on the version. */
  datatype ModuleVersion = ModuleVersion(path: string, version: string, pseudo: bool)

  /** What one download of a module version yields; the commit time is in whole Unix seconds. */
  datatype Copy = Copy(time: int, goMod: Bytes, zip: Bytes)

  /** A "gomod/" object: the go.mod file, with the commit time kept as object metadata. */
  datatype GoModObject = GoModObject(time: int, goMod: Bytes)

  /** The objects stored for one module version under "concat/", "gomod/" and "zip/". */
  datatype Cell = Cell(concat: Option<Copy>, goMod: Option<GoModObject>, zip: Option<Bytes>)

  const EMPTY := Cell(None, None, None)

  datatype ObjectKind = Concat | GoMod | Zip

  predicate Exists(c: Cell, kind: ObjectKind) {
    match kind
    case Concat => c.concat.Some?
    case GoMod => c.goMod.Some?
    case Zip => c.zip.Some?
  }

  predicate Complete(c: Cell) {
    c.goMod.Some? && c.zip.Some?
  }

  /** `WarmUp` is the background caching that a "go list" triggers; it answers nobody. */
  datatype Endpoint = Info | GoModFile | ZipFile | Latest | WarmUp

  datatype Answer = TimeOf(time: int) | GoModOf(goMod: Bytes) | ZipOf(zip: Bytes)

  /** The part of a copy that an endpoint reports. */
  function View(e: Endpoint, c: Copy): Answer {
    match e
    case GoModFile => GoModOf(c.goMod)
    case ZipFile => ZipOf(c.zip)
    case _ => TimeOf(c.time)
  }

  /** What an endpoint reads out of one object, if the object exists. */
  function Lookup(c: Cell, kind: ObjectKind, e: Endpoint): Option<Answer> {
    match kind
    case Concat => if c.concat.None? then None else Some(View(e, c.concat.value))
    case GoMod =>
      if c.goMod.None? then None
      else if e == GoModFile then Some(GoModOf(c.goMod.value.goMod))
      else Some(TimeOf(c.goMod.value.time))
    case Zip => if c.zip.None? then None else Some(ZipOf(c.zip.value))
  }

  datatype Write =
    | CreateConcat(v: ModuleVersion, copy: Copy)
    | CreateGoMod(v: ModuleVersion, obj: GoModObject)
    | CreateZip(v: ModuleVersion, zip: Bytes)
    | DeleteConcat(v: ModuleVersion)

  function Target(w: Write): ObjectKind {
    match w
    case CreateConcat(_, _) => Concat
    case CreateGoMod(_, _) => GoMod
    case CreateZip(_, _) => Zip
    case DeleteConcat(_) => Concat
  }

  /** The effect of a write on its cell: a create has none when the object exists already. */
  function Apply(c: Cell, w: Write): Cell {
    match w
    case CreateConcat(_, copy) => if c.concat.Some? then c else c.(concat := Some(copy))
    case CreateGoMod(_, obj) => if c.goMod.Some? then c else c.(goMod := Some(obj))
    case CreateZip(_, zip) => if c.zip.Some? then c else c.(zip := Some(zip))
    case DeleteConcat(_) => c.(concat := None)
  }
}
