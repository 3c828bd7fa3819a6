/** The file names the program builds for one exposure. Every file lives in a
    directory named after the exposure id, under the data directory. */
module Paths {
  import opened Decimal
  import Strings

  /** `{d}/{expid}/` */
  function ExposureDir(dir: string, expid: int): string
  {
    dir + "/" + IntText(expid) + "/"
  }

  /** `f'{fits_dir}/{expid}/fvc-{expid:08d}.fits.fz'` */
  function FitsPath(dir: string, expid: int): string
  {
    ExposureDir(dir, expid) + "fvc-" + Pad08(expid) + ".fits.fz"
  }

  /** `f'{zth_dir}/{expid}/{poly}-{expid}.0.par'` */
  function ZthPath(dir: string, expid: int, poly: string): string
  {
    ExposureDir(dir, expid) + poly + "-" + IntText(expid) + ".0.par"
  }

  /** `f'{data_dir}/{expid}/fvcMerge-{expid}.dat'` */
  function FvcMergePath(dir: string, expid: int): string
  {
    ExposureDir(dir, expid) + "fvcMerge-" + IntText(expid) + ".dat"
  }

  /** `f'{data_dir}/{expid}/fvcMerge-{expid}.0.dat'`, the fallback name. */
  function FvcMergeAltPath(dir: string, expid: int): string
  {
    ExposureDir(dir, expid) + "fvcMerge-" + IntText(expid) + ".0.dat"
  }

  lemma NoSlashInIntText(n: int)
    ensures '/' !in IntText(n)
  {
    IntTextChars(n);
  }

  lemma ExposureDirSplit(dir: string, expid: int, x: string)
    ensures ExposureDir(dir, expid) + x == (dir + "/") + (IntText(expid) + ['/'] + x)
  {
  }

  lemma PrefixCancel(pre: string, u: string, v: string)
    requires pre + u == pre + v
    ensures u == v
  {
    assert u == (pre + u)[|pre|..];
    assert v == (pre + v)[|pre|..];
  }

  /** The directory part of any of these names fixes the exposure. */
  lemma ExposureDirDetermines(dir: string, a: int, b: int, x: string, y: string)
    requires ExposureDir(dir, a) + x == ExposureDir(dir, b) + y
    ensures a == b && x == y
  {
    NoSlashInIntText(a);
    NoSlashInIntText(b);
    ExposureDirSplit(dir, a, x);
    ExposureDirSplit(dir, b, y);
    PrefixCancel(dir + "/", IntText(a) + ['/'] + x, IntText(b) + ['/'] + y);
    Strings.CutAtFirst(IntText(a), IntText(b), '/', x, y);
    IntTextInjective(a, b);
  }

  /** The name of the image file after its directory. */
  function FitsName(expid: int): string
  {
    "fvc-" + Pad08(expid) + ".fits.fz"
  }

  lemma FitsPathSplit(dir: string, expid: int)
    ensures FitsPath(dir, expid) == ExposureDir(dir, expid) + FitsName(expid)
  {
  }

  /** Two exposures never read the same image file. */
  lemma FitsPathInjective(dir: string, a: int, b: int)
    requires FitsPath(dir, a) == FitsPath(dir, b)
    ensures a == b
  {
    FitsPathSplit(dir, a);
    FitsPathSplit(dir, b);
    ExposureDirDetermines(dir, a, b, FitsName(a), FitsName(b));
  }

  /** The name of a coefficient file after its directory, cut at its first `-`. */
  lemma ZthPathSplit(dir: string, expid: int, poly: string)
    ensures ZthPath(dir, expid, poly) == ExposureDir(dir, expid) + (poly + ['-'] + (IntText(expid) + ".0.par"))
  {
  }

  /** Different (exposure, polynomial) pairs read different coefficient files,
      as long as the polynomial names hold no `-`. */
  lemma ZthPathInjective(dir: string, a: int, p: string, b: int, q: string)
    requires '-' !in p && '-' !in q
    requires ZthPath(dir, a, p) == ZthPath(dir, b, q)
    ensures a == b && p == q
  {
    ZthPathSplit(dir, a, p);
    ZthPathSplit(dir, b, q);
    ExposureDirDetermines(dir, a, b, p + ['-'] + (IntText(a) + ".0.par"), q + ['-'] + (IntText(b) + ".0.par"));
    Strings.CutAtFirst(p, q, '-', IntText(a) + ".0.par", IntText(b) + ".0.par");
  }

  /** The fallback is a different file from the first choice. */
  lemma FvcMergePathsDiffer(dir: string, expid: int)
    ensures FvcMergePath(dir, expid) != FvcMergeAltPath(dir, expid)
  {
    var pre := ExposureDir(dir, expid) + "fvcMerge-" + IntText(expid);
    assert FvcMergePath(dir, expid) == pre + ".dat";
    assert FvcMergeAltPath(dir, expid) == pre + ".0.dat";
    assert FvcMergePath(dir, expid)[|pre| + 1] == 'd';
    assert FvcMergeAltPath(dir, expid)[|pre| + 1] == '0';
  }
}
