/**
  `convert_video(source, resolution, tag)`: derives the rendition's path by
  replacing every ".mp4" in the source path with "_<tag>.mp4", starts the encoder
  on a shell command line naming source, frame size and target, ignores how the
  encoder ends, and returns the derived path.
 */
module Tasks {
  import opened Wrappers
  import opened PyStr
  import opened Shell
  import opened Host

  const Ext: string := ".mp4"

  /** The path `convert_video` writes to and returns. */
  function Target(source: Path, tag: string): Path
  {
    Replace(source, Ext, "_" + tag + Ext)
  }

  /** The encoder command line, with the fixed codec and quality parameters. */
  function Command(source: Path, resolution: string, target: Path): (cmd: string)
    ensures OccursAt(cmd, source, 11)
    ensures OccursAt(cmd, resolution, 16 + |source|)
    ensures OccursAt(cmd, target, 59 + |source| + |resolution|)
    ensures |cmd| == 60 + |source| + |resolution| + |target|
  {
    "ffmpeg -i \"" + source + "\" -s " + resolution
      + " -c:v libx264 -crf 23 -c:a aac -strict -2 \"" + target + "\""
  }

  /** The arguments ffmpeg receives when the command line is split into words. */
  function Arguments(source: Path, resolution: string, target: Path): seq<string>
  {
    ["ffmpeg", "-i", source, "-s", resolution,
     "-c:v", "libx264", "-crf", "23", "-c:a", "aac", "-strict", "-2", target]
  }

  /** The host state after `convert_video` returns. */
  function Converted(st: Snapshot, encodes: string -> bool, source: Path, resolution: string, tag: string): Snapshot
  {
    var target := Target(source, tag);
    Started(st, encodes, Command(source, resolution, target), target)
  }

  /** The subprocess call is the only effect; the result does not depend on it. */
  method ConvertVideo(host: Host, source: Path, resolution: string, tag: string) returns (target: Path)
    modifies host
    ensures target == Target(source, tag)
    ensures host.State() == Converted(old(host.State()), host.encodes, source, resolution, tag)
  {
    target := Replace(source, Ext, "_" + tag + Ext);
    var cmd := "ffmpeg -i \"" + source + "\" -s " + resolution
      + " -c:v libx264 -crf 23 -c:a aac -strict -2 \"" + target + "\"";
    host.Run(cmd, target);
  }

  /** ".mp4" cannot start inside `stem` in `stem + ".mp4"` unless `stem` contains it. */
  lemma ExtOnlyAtEnd(stem: string)
    requires !Contains(stem, Ext)
    ensures forall i | 0 <= i < |stem| :: !OccursAt(stem + Ext, Ext, i)
  {
    var s := stem + Ext;
    forall i | 0 <= i < |stem|
      ensures !OccursAt(s, Ext, i)
    {
      if i + 4 <= |stem| {
        assert s[i..i + 4] == stem[i..i + 4];
        assert !OccursAt(stem, Ext, i);
      } else {
        // the window covers the '.' that opens the appended extension,
        // at an index of the pattern that holds 'm', 'p' or '4'
        var j := |stem| - i;
        assert s[i..i + 4][j] == s[|stem|] == '.';
        assert Ext[j] != '.';
      }
    }
  }

  /** With the only ".mp4" at the end, the suffix is replaced by `repl`. */
  lemma ReplaceTrailingExt(stem: string, repl: string)
    requires !Contains(stem, Ext)
    ensures Replace(stem + Ext, Ext, repl) == stem + repl
  {
    ExtOnlyAtEnd(stem);
    ReplaceSkipsPrefix(stem, Ext, Ext, repl);
    assert Ext[4..] == [];
  }

  /** "name.mp4" where "name" holds no ".mp4": the one shape of upload path the hooks expect. */
  predicate SingleTrailingExt(source: Path)
  {
    EndsWith(source, Ext) && !Contains(source[..|source| - |Ext|], Ext)
  }

  /** "name.mp4" gives "name_<tag>.mp4". */
  lemma TargetOfStem(stem: string, tag: string)
    requires !Contains(stem, Ext)
    ensures Target(stem + Ext, tag) == stem + "_" + tag + Ext
  {
    ReplaceTrailingExt(stem, "_" + tag + Ext);
  }

  /** A source without ".mp4" is its own target. */
  lemma TargetWithoutExt(source: Path, tag: string)
    requires !Contains(source, Ext)
    ensures Target(source, tag) == source
  {
    ReplaceAbsent(source, Ext, "_" + tag + Ext);
  }

  /**
    With at most one ".mp4" in the source, the target ends with ".mp4" only when
    the source has the expected shape "name.mp4".
   */
  lemma TargetEndsWithExt(source: Path, tag: string)
    requires Count(source, Ext) <= 1
    ensures EndsWith(Target(source, tag), Ext) ==> SingleTrailingExt(source)
  {
    var t := Target(source, tag);
    if Count(source, Ext) == 0 {
      CountZeroIffAbsent(source, Ext);
      TargetWithoutExt(source, tag);
      if |source| >= 4 {
        assert !OccursAt(source, Ext, |source| - 4);
      }
    } else {
      var u, v := ReplaceOnce(source, Ext);
      assert t == u + ("_" + tag + Ext) + v;
      if v == [] {
        assert source == u + Ext;
        TrailingExtShape(u);
      } else {
        NoExtAtEnd(u, "_" + tag + Ext, v);
      }
    }
  }

  /** "name.mp4" with no ".mp4" in "name" has the expected shape. */
  lemma TrailingExtShape(stem: string)
    requires !Contains(stem, Ext)
    ensures SingleTrailingExt(stem + Ext)
  {
    var s := stem + Ext;
    assert s[..|s| - 4] == stem && s[|s| - 4..] == Ext;
  }

  /**
    Text that ends with ".mp4", followed by a non-empty tail without ".mp4", does
    not end with ".mp4".
   */
  lemma NoExtAtEnd(u: string, a: string, v: string)
    requires EndsWith(a, Ext) && v != [] && !Contains(v, Ext)
    ensures !EndsWith(u + a + v, Ext)
  {
    var t := u + a + v;
    if |v| >= 4 {
      assert t[|t| - 4..] == v[|v| - 4..];
      assert !OccursAt(v, Ext, |v| - 4);
    } else {
      // the last four characters start inside the ".mp4" that ends `a`, past its '.'
      assert t[|t| - 4] == a[|a| - 4 + |v|] == Ext[|v|];
      assert Ext[|v|] != Ext[0];
    }
  }

  /** Each replaced ".mp4" lengthens the path by the tag and its underscore. */
  lemma TargetLength(source: Path, tag: string)
    ensures |Target(source, tag)| == |source| + Count(source, Ext) * (|tag| + 1)
  {
    ReplaceLength(source, Ext, "_" + tag + Ext);
  }

  /** As soon as ".mp4" occurs, the three renditions and the source are four different files. */
  lemma TargetsDistinct(source: Path)
    requires Contains(source, Ext)
    ensures Target(source, "480p") != Target(source, "720p")
    ensures Target(source, "480p") != Target(source, "1080p")
    ensures Target(source, "720p") != Target(source, "1080p")
    ensures source !in {Target(source, "480p"), Target(source, "720p"), Target(source, "1080p")}
  {
    TargetsLonger(source);
    assert ("_" + "480p" + Ext)[1] != ("_" + "720p" + Ext)[1];
    CountZeroIffAbsent(source, Ext);
    ReplaceSeparatesReplacements(source, Ext, "_" + "480p" + Ext, "_" + "720p" + Ext);
  }

  /** Once ".mp4" occurs, each target is longer than the source, the 1080p one the longest. */
  lemma TargetsLonger(source: Path)
    requires Contains(source, Ext)
    ensures |source| < |Target(source, "480p")| == |Target(source, "720p")| < |Target(source, "1080p")|
  {
    CountZeroIffAbsent(source, Ext);
    var n := Count(source, Ext);
    TargetLength(source, "480p");
    TargetLength(source, "720p");
    TargetLength(source, "1080p");
    assert |"480p"| == |"720p"| == 4 && |"1080p"| == 5;
    assert 0 < n * 5 < n * 6;
  }

  /**
    Split into words by the shell, the command line is exactly the argument vector
    ffmpeg expects, provided the quoted paths and the bare frame size hold no
    character the shell would interpret.
   */
  lemma CommandArguments(source: Path, resolution: string, target: Path)
    requires Quotable(source) && Quotable(target)
    requires Bare(resolution) && resolution != []
    ensures Words(Command(source, resolution, target)) == Some(Arguments(source, resolution, target))
  {
    var rest := resolution + " " + (Spaced(FixedArgs) + ("\"" + target + "\""));
    CommandShape(source, resolution, target);
    ScanHead(source, rest);
    ScanAfterSize(resolution, target, ["ffmpeg", "-i", source, "-s"]);
    ArgumentsParts(source, resolution, target);
  }

  /** The program name, "-i", the quoted source and "-s" are the first four words. */
  lemma ScanHead(source: Path, rest: string)
    requires Quotable(source)
    ensures Scan("ffmpeg" + " " + ("-i" + " " + ("\"" + source + "\" " + ("-s" + " " + rest))), [], [], false, false)
         == Scan(rest, ["ffmpeg", "-i", source, "-s"], [], false, false)
  {
    var r3 := "-s" + " " + rest;
    var r2 := "\"" + source + "\" " + r3;
    var r1 := "-i" + " " + r2;
    BareWord("ffmpeg", r1, []);
    assert [] + ["ffmpeg"] == ["ffmpeg"];
    BareWord("-i", r2, ["ffmpeg"]);
    assert ["ffmpeg"] + ["-i"] == ["ffmpeg", "-i"];
    QuotedWord(source, r3, ["ffmpeg", "-i"]);
    assert ["ffmpeg", "-i"] + [source] == ["ffmpeg", "-i", source];
    BareWord("-s", rest, ["ffmpeg", "-i", source]);
    assert ["ffmpeg", "-i", source] + ["-s"] == ["ffmpeg", "-i", source, "-s"];
  }

  /** The frame size, the fixed options and the quoted target are the remaining words. */
  lemma ScanAfterSize(resolution: string, target: Path, done: seq<string>)
    requires Quotable(target) && Bare(resolution) && resolution != []
    ensures Scan(resolution + " " + (Spaced(FixedArgs) + ("\"" + target + "\"")), done, [], false, false)
         == Some(done + [resolution] + FixedArgs + [target])
  {
    var tail := "\"" + target + "\"";
    BareWord(resolution, Spaced(FixedArgs) + tail, done);
    FixedArgsBare();
    BareWords(FixedArgs, tail, done + [resolution]);
    QuotedLastWord(target, done + [resolution] + FixedArgs);
  }

  lemma ArgumentsParts(source: Path, resolution: string, target: Path)
    ensures ["ffmpeg", "-i", source, "-s"] + [resolution] + FixedArgs + [target]
         == Arguments(source, resolution, target)
  {
  }

  /** The fixed codec and quality arguments. */
  const FixedArgs: seq<string> := ["-c:v", "libx264", "-crf", "23", "-c:a", "aac", "-strict", "-2"]

  lemma FixedArgsBare()
    ensures forall i | 0 <= i < |FixedArgs| :: Bare(FixedArgs[i]) && FixedArgs[i] != []
  {
  }

  /** The command line cut at the word boundaries the shell will find. */
  lemma CommandShape(source: Path, resolution: string, target: Path)
    ensures Command(source, resolution, target)
      == "ffmpeg" + " " + ("-i" + " " + ("\"" + source + "\" " +
           ("-s" + " " + (resolution + " " + (Spaced(FixedArgs) + ("\"" + target + "\""))))))
  {
    LitHead();
    LitMid();
    LitQuoteSpace();
    LitFixed();
    Regroup("ffmpeg -i \"", "\" -s ", " -c:v libx264 -crf 23 -c:a aac -strict -2 \"", source, resolution, target,
      "ffmpeg", " ", "-i", "\"", "-s", Spaced(FixedArgs));
  }

  lemma Regroup(p1: string, p2: string, p3: string, s: string, r: string, t: string,
                ff: string, sp: string, dashI: string, q: string, dashS: string, fixed: string)
    requires p1 == ff + sp + dashI + sp + q
    requires p2 == q + sp + dashS + sp
    requires p3 == sp + fixed + q
    ensures p1 + s + p2 + r + p3 + t + q
         == ff + sp + (dashI + sp + (q + s + (q + sp) + (dashS + sp + (r + sp + (fixed + (q + t + q))))))
  {
  }

  lemma LitHead()
    ensures "ffmpeg -i \"" == "ffmpeg" + " " + "-i" + " " + "\""
  {
  }

  lemma LitMid()
    ensures "\" -s " == "\"" + " " + "-s" + " "
  {
  }

  lemma LitQuoteSpace()
    ensures "\" " == "\"" + " "
  {
  }

  lemma LitFixed()
    ensures " -c:v libx264 -crf 23 -c:a aac -strict -2 \"" == " " + Spaced(FixedArgs) + "\""
  {
    LitFixedWords();
    SpacedFixedArgs();
    SpacedEight(" ", "\"", "-c:v", "libx264", "-crf", "23", "-c:a", "aac", "-strict", "-2");
  }

  /** The options text, cut at its spaces, one word at a time. */
  lemma LitFixedWords()
    ensures " -c:v libx264 -crf 23 -c:a aac -strict -2 \""
         == " " + "-c:v" + " " + "libx264" + " " + "-crf" + " " + "23" + " " + "-c:a" + " " + "aac"
            + " " + "-strict" + " " + "-2" + " " + "\""
  {
    LitCodecWords();
    assert " -c:v libx264 -crf 23 -c:a" == " -c:v libx264 -crf 23" + " " + "-c:a";
    assert " -c:v libx264 -crf 23 -c:a aac" == " -c:v libx264 -crf 23 -c:a" + " " + "aac";
    assert " -c:v libx264 -crf 23 -c:a aac -strict" == " -c:v libx264 -crf 23 -c:a aac" + " " + "-strict";
    assert " -c:v libx264 -crf 23 -c:a aac -strict -2" == " -c:v libx264 -crf 23 -c:a aac -strict" + " " + "-2";
  }

  lemma LitCodecWords()
    ensures " -c:v libx264 -crf 23" == " " + "-c:v" + " " + "libx264" + " " + "-crf" + " " + "23"
  {
    assert " -c:v" == " " + "-c:v";
    assert " -c:v libx264" == " -c:v" + " " + "libx264";
    assert " -c:v libx264 -crf" == " -c:v libx264" + " " + "-crf";
  }

  lemma SpacedFixedArgs()
    ensures Spaced(FixedArgs)
         == "-c:v" + " " + ("libx264" + " " + ("-crf" + " " + ("23" + " " + ("-c:a" + " " + ("aac" + " "
            + ("-strict" + " " + ("-2" + " " + [])))))))
  {
  }

  lemma SpacedEight(sp: string, q: string, a: string, b: string, c: string, d: string,
                    e: string, f: string, g: string, h: string)
    ensures sp + a + sp + b + sp + c + sp + d + sp + e + sp + f + sp + g + sp + h + sp + q
         == sp + (a + sp + (b + sp + (c + sp + (d + sp + (e + sp + (f + sp + (g + sp + (h + sp + [])))))))) + q
  {
  }

  /** A quotable source and tag give a quotable target. */
  lemma TargetQuotable(source: Path, tag: string)
    requires Quotable(source) && Quotable(tag)
    ensures Quotable(Target(source, tag))
  {
    var banned := QuotedSpecial + {'"'};
    var repl := "_" + tag + Ext;
    assert Avoids(source, banned);
    assert Avoids(repl, banned);
    ReplaceAvoids(source, Ext, repl, banned);
  }

  /**
    The command `convert_video` starts hands ffmpeg the source, the frame size and
    the derived target as separate arguments, whatever the source path's shape, as
    long as the shell has nothing to interpret in it.
   */
  lemma ConvertArguments(source: Path, resolution: string, tag: string)
    requires Quotable(source) && Quotable(tag)
    requires Bare(resolution) && resolution != []
    ensures Words(Command(source, resolution, Target(source, tag)))
         == Some(Arguments(source, resolution, Target(source, tag)))
  {
    TargetQuotable(source, tag);
    CommandArguments(source, resolution, Target(source, tag));
  }
}
