/** The chest folder as the store sees it: file names mapped to contents.
    The YAML codec is opaque; a file either holds a serialized chest, which
    reads back as exactly that chest, or content that fails to parse.
    Writes to the names in `readOnly` fail and leave the folder as it was;
    deletion always succeeds, and deleting a missing file does nothing. */
module Disk {
  import opened Wrappers
  import opened Inventory
  import opened Text

  /** The fixed two-part extension of every chest file. */
  const ChestSuffix: string := ".chest.yml"

  datatype FileData = Serialized(inv: Inventory) | Malformed

  datatype Disk = Disk(files: map<string, FileData>, readOnly: set<string>)

  /** The file that holds the chest stored under `key`. */
  function ChestFile(key: string): string {
    key + ChestSuffix
  }

  /** The file filter of the load sweep. */
  predicate IsChestFile(name: string) {
    EndsWith(name, ChestSuffix)
  }

  /** The key a chest file is named after: its name without the suffix. */
  function Stem(name: string): (key: string)
    requires IsChestFile(name)
    ensures ChestFile(key) == name
  {
    name[..|name| - |ChestSuffix|]
  }

  lemma StemOfChestFile(key: string)
    ensures IsChestFile(ChestFile(key))
    ensures Stem(ChestFile(key)) == key
  {
  }

  /** Distinct keys never share a file. */
  lemma ChestFileInjective(a: string, b: string)
    ensures ChestFile(a) == ChestFile(b) ==> a == b
  {
    if ChestFile(a) == ChestFile(b) {
      StemOfChestFile(a);
      StemOfChestFile(b);
    }
  }

  /** InventoryIO.loadFromYaml: fails on a missing or unparsable file. */
  function Read(d: Disk, name: string): (r: Option<Inventory>)
    ensures r.Some? <==> name in d.files && d.files[name].Serialized?
    ensures r.Some? ==> d.files[name] == Serialized(r.value)
  {
    if name in d.files then
      match d.files[name]
      case Serialized(inv) => Some(inv)
      case Malformed => None
    else None
  }

  /** InventoryIO.saveToYaml: fails (an IOException) on a read-only name. */
  function Write(d: Disk, name: string, inv: Inventory): (r: Option<Disk>)
    ensures r.None? <==> name in d.readOnly
    ensures r.Some? ==> Read(r.value, name) == Some(inv)
    ensures r.Some? ==> r.value.readOnly == d.readOnly
    ensures r.Some? ==> forall n :: n != name ==> Untouched(d, r.value, n)
  {
    if name in d.readOnly then None
    else Some(d.(files := d.files[name := Serialized(inv)]))
  }

  /** File.delete, whose result the store ignores. */
  function Delete(d: Disk, name: string): (r: Disk)
    ensures name !in r.files
    ensures r.readOnly == d.readOnly
    ensures forall n :: n != name ==> Untouched(d, r, n)
  {
    d.(files := d.files - {name})
  }

  /** File `n` is present in `d'` exactly when it is in `d`, with the same
      contents. */
  predicate Untouched(d: Disk, d': Disk, n: string) {
    (n in d.files <==> n in d'.files) && (n in d.files ==> d'.files[n] == d.files[n])
  }
}
