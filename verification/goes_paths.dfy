/** The string glue of the GOES download script: the command-line defaults, the
    bucket key prefix built from a `YYYY-DDD-HH` time string and a band, the local
    file name taken from a blob key, the local target path, and the name of the
    image rendered from a data file. */
module GoesPaths {
  import opened PyStr

  /** Command-line defaults for `--band`, `--goes_folder` and `--goes_image_time`. */
  const DefaultBand := "13"
  const DefaultFolder := "./"
  const DefaultTime := "2020-146-00"

  /** The fixed parts of a full-disk radiance key. */
  const ProductDir := "ABI-L1b-RadF/"
  const FilePrefix := "OR_ABI-L1b-RadF-M6C"

  /** Year, day of year and hour as cut out of the time string. */
  datatype DateParts = DateParts(year: string, day: string, hour: string)

  /** The fields a key prefix is built from. */
  datatype KeyFields = KeyFields(date: DateParts, band: string)

  /** Cuts the time string at fixed positions: characters 0-3, 5-7 and 9-10.
      Positions 4 and 8 are skipped unread, and a short string yields short or
      empty parts instead of an error. */
  function ParseTime(t: string): (d: DateParts)
    ensures |d.year| == Min(4, |t|)
    ensures |d.day| == if |t| <= 5 then 0 else Min(3, |t| - 5)
    ensures |d.hour| == if |t| <= 9 then 0 else Min(2, |t| - 9)
    // whatever the length, each part is the run of characters at its position
    ensures forall i :: 0 <= i < |d.year| ==> d.year[i] == t[i]
    ensures forall i :: 0 <= i < |d.day| ==> d.day[i] == t[5 + i]
    ensures forall i :: 0 <= i < |d.hour| ==> d.hour[i] == t[9 + i]
    ensures |t| >= 11 ==> d == DateParts(t[..4], t[5..8], t[9..11])
  {
    DateParts(Slice(t, 0, 4), Slice(t, 5, 8), Slice(t, 9, 11))
  }

  /** The separators are never checked: two time strings that agree everywhere
      except at positions 4 and 8 (and past position 10) give the same parts. */
  lemma SeparatorsIgnored(t1: string, t2: string)
    requires Min(|t1|, 11) == Min(|t2|, 11)
    requires forall i :: 0 <= i < Min(|t1|, 11) && i != 4 && i != 8 ==> t1[i] == t2[i]
    ensures ParseTime(t1) == ParseTime(t2)
  {
    var d1, d2 := ParseTime(t1), ParseTime(t2);
    assert d1.year == d2.year by {
      forall i | 0 <= i < |d1.year| ensures d1.year[i] == d2.year[i] { assert t1[i] == t2[i]; }
    }
    assert d1.day == d2.day by {
      forall i | 0 <= i < |d1.day| ensures d1.day[i] == d2.day[i] { assert t1[5 + i] == t2[5 + i]; }
    }
    assert d1.hour == d2.hour by {
      forall i | 0 <= i < |d1.hour| ensures d1.hour[i] == d2.hour[i] { assert t1[9 + i] == t2[9 + i]; }
    }
  }

  /** The key prefix the blobs are listed by. */
  function Prefix(t: string, band: string): (p: string)
    ensures ProductDir <= p && '/' in p
    ensures |p| == 35 + |ParseTime(t).year| + |ParseTime(t).day| + |ParseTime(t).hour| + |band|
    ensures p[|p| - |band|..] == band
  {
    var d := ParseTime(t);
    var datestring := ProductDir + d.year + "/" + d.day + "/" + d.hour + "/";
    var p := datestring + FilePrefix + band;
    assert p[12] == '/';
    p
  }

  /** Reads the fields back out of a prefix of the full layout
      `ABI-L1b-RadF/YYYY/DDD/HH/OR_ABI-L1b-RadF-M6C<band>`. */
  function PrefixFields(p: string): Option<KeyFields>
  {
    if |p| >= 44 && p[..13] == ProductDir && p[17] == '/' && p[21] == '/' && p[24] == '/'
       && p[25..44] == FilePrefix
    then Some(KeyFields(DateParts(p[13..17], p[18..21], p[22..24]), p[44..]))
    else None
  }

  /** `PrefixFields` reads back every field of a key prefix laid out with a
      4-character year, 3-character day and 2-character hour. */
  lemma PrefixFieldsLayout(year: string, day: string, hour: string, band: string)
    requires |year| == 4 && |day| == 3 && |hour| == 2
    ensures PrefixFields(ProductDir + year + "/" + day + "/" + hour + "/" + FilePrefix + band)
         == Some(KeyFields(DateParts(year, day, hour), band))
  {
    var dir := ProductDir + year + "/" + day + "/" + hour + "/";
    var p := dir + (FilePrefix + band);
    assert ProductDir + year + "/" + day + "/" + hour + "/" + FilePrefix + band == p;
    assert |dir| == 25;
    assert p[..25] == dir && p[25..] == FilePrefix + band;
    assert dir[..13] == ProductDir && dir[13..17] == year && dir[18..21] == day && dir[22..24] == hour;
    assert dir[17] == '/' && dir[21] == '/' && dir[24] == '/';
    assert p[..13] == ProductDir && p[13..17] == year && p[18..21] == day && p[22..24] == hour;
    assert p[17] == '/' && p[21] == '/' && p[24] == '/';
    assert |FilePrefix| == 19;
    assert p[25..44] == FilePrefix && p[44..] == band;
  }

  /** For a time string of full length the prefix has the documented layout:
      every field sits at a fixed position and can be read back. */
  lemma PrefixRoundTrip(t: string, band: string)
    requires |t| >= 11
    ensures PrefixFields(Prefix(t, band)) == Some(KeyFields(ParseTime(t), band))
  {
    var d := ParseTime(t);
    assert Prefix(t, band) == ProductDir + d.year + "/" + d.day + "/" + d.hour + "/" + FilePrefix + band;
    PrefixFieldsLayout(d.year, d.day, d.hour, band);
  }

  /** Hence full-length time strings give distinct prefixes exactly when their
      parts or their bands differ. */
  lemma PrefixInjective(t1: string, b1: string, t2: string, b2: string)
    requires |t1| >= 11 && |t2| >= 11
    ensures Prefix(t1, b1) == Prefix(t2, b2) <==> ParseTime(t1) == ParseTime(t2) && b1 == b2
  {
    PrefixRoundTrip(t1, b1);
    PrefixRoundTrip(t2, b2);
  }

  /** The default time string names 2020, day 146, hour 00. */
  lemma DefaultTimeParts()
    ensures ParseTime(DefaultTime) == DateParts("2020", "146", "00")
  {
  }

  /** The defaults select band 13 at hour 00 of day 146 of 2020:
      `ABI-L1b-RadF/2020/146/00/OR_ABI-L1b-RadF-M6C13`. */
  lemma DefaultPrefix()
    ensures Prefix(DefaultTime, DefaultBand) == ProductDir + "2020/146/00/" + FilePrefix + "13"
  {
    var pieces := ProductDir + "2020" + "/" + "146" + "/" + "00" + "/" + FilePrefix + "13";
    assert pieces == ProductDir + "2020/146/00/" + FilePrefix + "13";
    DefaultTimeParts();
    assert Prefix(DefaultTime, DefaultBand) == pieces;
  }

  /** A time string holding only the year yields empty day and hour. */
  lemma YearOnlyTimeParts()
    ensures ParseTime("2020") == DateParts("2020", "", "")
  {
  }

  /** The local file name of a blob: the text after the last `/` of its key.
      A key without `/` has no second piece, and the script fails with an
      index error, modelled as `None`. */
  function Basename(key: string): (r: Option<string>)
    ensures r.Some? <==> '/' in key
    ensures r.Some? ==> '/' !in r.value && |r.value| < |key|
  {
    var parts := RSplit(key, '/', 1);
    if |parts| < 2 then None
    else
      RSplitOnce(key, '/');
      Some(parts[1])
  }

  /** `Basename` is the text after the last `/` of the key. */
  lemma BasenameAfterLastSlash(key: string)
    requires '/' in key
    ensures LastIndex(key, '/').Some?
    ensures Basename(key) == Some(key[LastIndex(key, '/').value + 1..])
  {
    RSplitOnce(key, '/');
  }

  /** The key is the text before its last `/`, that `/`, and the name. */
  lemma BasenameRejoins(key: string)
    requires Basename(key).Some?
    ensures var name := Basename(key).value;
      |name| < |key| && key == key[..|key| - |name| - 1] + "/" + name
  {
    BasenameAfterLastSlash(key);
    var k := LastIndex(key, '/').value;
    assert key == key[..k] + [key[k]] + key[k + 1..];
  }

  /** The local path a blob is written to: the folder and the file name joined
      without a separator. */
  function TargetPath(filepath: string, filename: string): (r: string)
    ensures |r| == |filepath| + |filename|
    ensures r[..|filepath|] == filepath && r[|filepath|..] == filename
  {
    filepath + filename
  }

  /** The name of a blob's target is the blob's own name exactly when the
      folder ends in `/`; `./data` and `a` place `f.nc` at `./dataf.nc` and
      `af.nc`. */
  lemma TargetPathPlacement(filepath: string, filename: string)
    requires '/' !in filename
    ensures Basename(TargetPath(filepath, filename)) == Some(filename)
            <==> filepath != [] && filepath[|filepath| - 1] == '/'
  {
    if filepath != [] {
      assert filepath[|filepath| - 1] in filepath;
    }
    if '/' in filepath {
      var k := LastIndex(filepath, '/').value;
      BasenameInFolder(filepath, filename);
      if k < |filepath| - 1 {
        assert filepath[|filepath| - 1] in filepath[k + 1..];
      }
    }
  }

  /** With the default folder `./` every blob lands under its own name. */
  lemma DefaultFolderPlacement(filename: string)
    requires '/' !in filename
    ensures Basename(TargetPath(DefaultFolder, filename)) == Some(filename)
  {
    TargetPathPlacement(DefaultFolder, filename);
  }

  /** The name of a target whose folder string holds a `/` is the folder's
      text after its last `/` followed by the blob's name. */
  lemma BasenameInFolder(filepath: string, filename: string)
    requires '/' !in filename && '/' in filepath
    ensures LastIndex(filepath, '/').Some?
    ensures Basename(TargetPath(filepath, filename))
         == Some(filepath[LastIndex(filepath, '/').value + 1..] + filename)
  {
    RSplitOnceAppend(filepath, filename, '/');
  }

  /** The image name the script derives from a data file: `rsplit` with a
      `maxsplit` of 0 splits nothing, so the data file's own extension stays
      and `.jpg` is appended after it. */
  function PlotFilename(file: string): (r: string)
    ensures r == file + ".jpg"
  {
    RSplit(file, '.', 0)[0] + ".jpg"
  }

  /** The image name that was meant: the data file with its last extension
      replaced by `.jpg`. */
  function IntendedPlotFilename(file: string): (r: string)
    ensures |r| >= 4 && r[|r| - 4..] == ".jpg"
    ensures r[..|r| - 4] <= file
    ensures '.' !in file ==> r == file + ".jpg"
    ensures '.' in file ==> |r| - 4 < |file| && file[|r| - 4] == '.' && '.' !in file[|r| - 3..]
  {
    var stem := RSplit(file, '.', 1)[0];
    if '.' in file then RSplitOnce(file, '.'); stem + ".jpg" else stem + ".jpg"
  }

  /** Replacing the extension: `stem.ext` becomes `stem.jpg` whenever the
      extension has no dot of its own. */
  lemma IntendedStripsExtension(stem: string, ext: string)
    requires '.' !in ext
    ensures IntendedPlotFilename(stem + "." + ext) == stem + ".jpg"
  {
    var file := stem + "." + ext;
    assert file == (stem + ".") + ext;
    LastIndexAppend(stem + ".", ext, '.');
    assert LastIndex(stem + ".", '.') == Some(|stem|);
    RSplitOnce(file, '.');
    assert file[..|stem|] == stem;
  }

  /** The script's name keeps the data extension for every `.nc` file and so
      never agrees with the intended one: `a/b.nc` becomes `a/b.nc.jpg`, not
      `a/b.jpg`. */
  lemma PlotFilenameKeepsExtension(stem: string)
    ensures PlotFilename(stem + ".nc") == stem + ".nc.jpg"
    ensures IntendedPlotFilename(stem + ".nc") == stem + ".jpg"
    ensures PlotFilename(stem + ".nc") != IntendedPlotFilename(stem + ".nc")
  {
    IntendedStripsExtension(stem, "nc");
    assert stem + ".nc" == stem + "." + "nc";
    var a, b := stem + ".nc.jpg", stem + ".jpg";
    assert |a| != |b|;
  }

  /** Each data file gets an image of its own under the script's naming. */
  lemma PlotFilenameInjective(f1: string, f2: string)
    requires f1 != f2
    ensures PlotFilename(f1) != PlotFilename(f2)
  {
    if |f1| == |f2| {
      var i :| 0 <= i < |f1| && f1[i] != f2[i];
      assert PlotFilename(f1)[i] == f1[i];
      assert PlotFilename(f2)[i] == f2[i];
    } else {
      assert |PlotFilename(f1)| != |PlotFilename(f2)|;
    }
  }

  /** And under the intended naming, for the `.nc` files the script renders. */
  lemma IntendedPlotFilenameInjective(s1: string, s2: string)
    requires s1 != s2
    ensures IntendedPlotFilename(s1 + ".nc") != IntendedPlotFilename(s2 + ".nc")
  {
    PlotFilenameKeepsExtension(s1);
    PlotFilenameKeepsExtension(s2);
    if |s1| == |s2| {
      var i :| 0 <= i < |s1| && s1[i] != s2[i];
      assert (s1 + ".jpg")[i] == s1[i];
      assert (s2 + ".jpg")[i] == s2[i];
    } else {
      assert |s1 + ".jpg"| != |s2 + ".jpg"|;
    }
  }
}
