/** What the directory tree and the spectral reader hand to the dataset writer.
    Flux and wavelength samples are only ever copied, so their type is a parameter. */
module SpectraModel {

  datatype Option<+T> = None | Some(value: T)

  /** One row of a coadd file's fibermap table. TARGETID, TILEID and PETAL_LOC may be
      missing from the table (None); COADD_FIBERSTATUS and DESI_TARGET are always there. */
  datatype FibermapRow = FibermapRow(
    targetId: Option<int>,
    tileId: Option<int>,
    petalLoc: Option<int>,
    fiberStatus: int,
    desiTarget: int)

  /** What the reader returns for one coadd file: the fibermap, one flux row per target
      in each of the bands b, r and z, and one wavelength grid per band. */
  datatype Spectra<T> = Spectra(
    fibermap: seq<FibermapRow>,
    fluxB: seq<seq<T>>,
    fluxR: seq<seq<T>>,
    fluxZ: seq<seq<T>>,
    waveB: seq<T>,
    waveR: seq<T>,
    waveZ: seq<T>)

  /** The folder data_path/tile/night. */
  datatype Folder = Folder(tile: string, night: string)

  /** The file data_path/tile/night/petal. */
  datatype PetalPath = PetalPath(folder: Folder, petal: string)

  /** The data tree as the writer sees it: the directory listing of every folder that
      exists, and the contents of every file the reader can read. A folder absent from
      `listings` is not a directory; a path absent from `readable` makes the reader raise. */
  datatype Archive<T> = Archive(
    listings: map<Folder, seq<string>>,
    readable: map<PetalPath, Spectra<T>>)

  /** The reader called on data_path/tile/night/petal: None when it raises. */
  function Read<T>(archive: Archive<T>, folder: Folder, petal: string): Option<Spectra<T>>
  {
    var path := PetalPath(folder, petal);
    if path in archive.readable then Some(archive.readable[path]) else None
  }
}
