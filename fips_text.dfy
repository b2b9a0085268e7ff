/**
 * The text the FIPS installer reads from and writes to /etc/ssl/openssl.cnf:
 * the fixed marker block, the trailing-whitespace trim applied on every read,
 * substring search with the meaning of std::string::find, and the cut that
 * removes the marker block when FIPS mode is disabled.
 */
module FipsText {

  datatype Option<+T> = None | Some(value: T)

  /** The first line of the marker block; disabling cuts the file where it first occurs. */
  const StartMarker: string := "#FIPS_CONFIG_START"

  /** The last line of the marker block. */
  const EndMarker: string := "#FIPS_CONFIG_END"

  /** The marker block appended to openssl.cnf on enable, byte for byte (no final newline). */
  const FipsConfig: string :=
    StartMarker + "\n.include /etc/ssl/fipsmodule.cnf\n[openssl_init]\nalg_section = algorithm_sect\n[provider_sect]\nfips = fips_sect\nbase = base_sect\n[base_sect]\nactivate = 1\n[algorithm_sect]\ndefault_properties = fips = yes\n" + EndMarker

  /** std::isspace in the "C" locale: space, tab, newline, vertical tab, form feed, carriage return. */
  predicate IsSpace(c: char)
  {
    c == ' ' || '\t' <= c <= '\r'
  }

  /**
   * The content kept by the read loop that pops whitespace off the back
   * of the string until it is empty or ends in a non-space character.
   */
  function TrimEnd(s: string): (t: string)
    ensures |t| <= |s| && t == s[..|t|]
    ensures t == [] || !IsSpace(t[|t| - 1])
    ensures forall k :: |t| <= k < |s| ==> IsSpace(s[k])
    decreases |s|
  {
    if s != [] && IsSpace(s[|s| - 1]) then TrimEnd(s[..|s| - 1]) else s
  }

  /** The three properties of TrimEnd determine its result: it removes exactly the trailing whitespace. */
  lemma TrimEndUnique(s: string, t: string)
    requires |t| <= |s| && t == s[..|t|]
    requires t == [] || !IsSpace(t[|t| - 1])
    requires forall k :: |t| <= k < |s| ==> IsSpace(s[k])
    ensures t == TrimEnd(s)
  {
  }

  /** Trimming a text that does not end in whitespace leaves it as it is. */
  lemma TrimEndKeeps(s: string)
    requires s != [] && !IsSpace(s[|s| - 1])
    ensures TrimEnd(s) == s
  {
  }

  /** `pat` occurs in `s` starting at index `k`. */
  predicate OccursAt(s: string, pat: string, k: nat)
  {
    k + |pat| <= |s| && s[k..k + |pat|] == pat
  }

  /** s.find(pat, i): the first index at or after `i` where `pat` occurs; None stands for npos. */
  function FindFrom(s: string, pat: string, i: nat): (r: Option<nat>)
    ensures r.Some? ==> i <= r.value && OccursAt(s, pat, r.value)
    ensures forall k :: i <= k && (r.None? || k < r.value) ==> !OccursAt(s, pat, k)
    decreases |s| - i
  {
    if i + |pat| > |s| then None
    else if s[i..i + |pat|] == pat then Some(i)
    else FindFrom(s, pat, i + 1)
  }

  /** s.find(pat): the first index where `pat` occurs; None (npos) exactly when it occurs nowhere. */
  function Find(s: string, pat: string): (r: Option<nat>)
    ensures r.None? <==> forall k :: !OccursAt(s, pat, k)
    ensures r.Some? ==> OccursAt(s, pat, r.value) && forall k: nat :: k < r.value ==> !OccursAt(s, pat, k)
  {
    FindFrom(s, pat, 0)
  }

  /** s.find(pat) != npos: `pat` occurs somewhere in `s`. */
  predicate Contains(s: string, pat: string)
    ensures Contains(s, pat) <==> exists k :: OccursAt(s, pat, k)
  {
    Find(s, pat).Some?
  }

  /** Find returns the position of the first occurrence: any occurrence with none before it is the answer. */
  lemma FindIsFirst(s: string, pat: string, j: nat)
    requires OccursAt(s, pat, j)
    requires forall k: nat :: k < j ==> !OccursAt(s, pat, k)
    ensures Find(s, pat) == Some(j)
  {
  }

  /** An occurrence inside a prefix of `s` is an occurrence in `s`. */
  lemma OccursInPrefix(s: string, n: nat, pat: string, k: nat)
    requires n <= |s| && OccursAt(s[..n], pat, k)
    ensures OccursAt(s, pat, k)
  {
    assert s[..n][k..k + |pat|] == s[k..k + |pat|];
  }

  /** A text without the start marker keeps that property when trimmed. */
  lemma NoMarkerAfterTrim(s: string)
    requires forall k :: !OccursAt(s, StartMarker, k)
    ensures forall k :: !OccursAt(TrimEnd(s), StartMarker, k)
  {
    var t := TrimEnd(s);
    forall k: nat | OccursAt(t, StartMarker, k)
      ensures false
    {
      OccursInPrefix(s, |t|, StartMarker, k);
    }
  }

  /**
   * readBuf.erase(readBuf.find(StartMarker), readBuf.length()): the text before
   * the first start marker; None where find returns npos, for which erase throws.
   */
  function CutAtMarker(text: string): (r: Option<string>)
    ensures r.None? <==> forall k :: !OccursAt(text, StartMarker, k)
    ensures r.Some? ==> |r.value| <= |text| && r.value == text[..|r.value|]
    ensures r.Some? ==> OccursAt(text, StartMarker, |r.value|)
    ensures r.Some? ==> forall k :: !OccursAt(r.value, StartMarker, k)
  {
    match Find(text, StartMarker)
    case None => None
    case Some(i) =>
      var rest := text[..i];
      assert forall k :: !OccursAt(rest, StartMarker, k) by {
        forall k: nat | OccursAt(rest, StartMarker, k)
          ensures false
        {
          OccursInPrefix(text, i, StartMarker, k);
        }
      }
      Some(rest)
  }

  /** The marker block begins with the start marker and ends in a non-space character. */
  lemma FipsConfigShape()
    ensures |StartMarker| == 18 && |FipsConfig| > 18
    ensures FipsConfig[..18] == StartMarker
    ensures !IsSpace(FipsConfig[|FipsConfig| - 1])
    ensures forall j :: 0 < j < 18 ==> StartMarker[j] != '#'
  {
  }

  /**
   * After the marker block is appended, trimming keeps the text whole and the
   * block is found in it: the trimmed contents end with the block.
   */
  lemma {:induction false} AppendedBlockFound(c: string)
    ensures TrimEnd(c + FipsConfig) == c + FipsConfig
    ensures OccursAt(c + FipsConfig, FipsConfig, |c|)
    ensures Contains(TrimEnd(c + FipsConfig), FipsConfig)
  {
    FipsConfigShape();
    var s := c + FipsConfig;
    assert s[|s| - 1] == FipsConfig[|FipsConfig| - 1];
    TrimEndKeeps(s);
    assert s[|c|..|c| + |FipsConfig|] == FipsConfig;
    assert OccursAt(s, FipsConfig, |c|);
  }

  /**
   * Where the start marker first occurs in c + FipsConfig when c has none:
   * exactly at the join, since the marker cannot straddle it (its only '#'
   * is its first character and the block begins with the marker).
   */
  lemma {:induction false} MarkerAtJoin(c: string)
    requires forall k :: !OccursAt(c, StartMarker, k)
    ensures Find(c + FipsConfig, StartMarker) == Some(|c|)
  {
    FipsConfigShape();
    var s := c + FipsConfig;
    assert s[|c|..|c| + 18] == FipsConfig[..18];
    assert OccursAt(s, StartMarker, |c|);
    forall k: nat | k < |c|
      ensures !OccursAt(s, StartMarker, k)
    {
      if k + 18 <= |c| {
        assert s[k..k + 18] == c[k..k + 18];
        assert !OccursAt(c, StartMarker, k);
      } else if k + 18 <= |s| {
        var j := |c| - k;
        assert s[k..k + 18][j] == s[|c|] == FipsConfig[0] == '#';
        assert StartMarker[j] != '#';
        assert s[k..k + 18] != StartMarker;
      }
    }
    FindIsFirst(s, StartMarker, |c|);
  }

  /**
   * Round trip of the text: append the marker block to a configuration with no
   * start marker, read it back trimmed, cut at the first start marker, and the
   * original configuration comes back byte for byte.
   */
  lemma {:induction false} AppendThenCut(c: string)
    requires forall k :: !OccursAt(c, StartMarker, k)
    ensures CutAtMarker(TrimEnd(c + FipsConfig)) == Some(c)
  {
    AppendedBlockFound(c);
    MarkerAtJoin(c);
  }

  /** Wherever the marker block occurs, the start marker occurs too. */
  lemma BlockStartsWithMarker(s: string, k: nat)
    requires OccursAt(s, FipsConfig, k)
    ensures OccursAt(s, StartMarker, k)
  {
    FipsConfigShape();
    assert s[k..k + 18] == s[k..k + |FipsConfig|][..18];
  }

  /**
   * After the cut, the trimmed text holds neither the start marker nor the
   * marker block, so a status derived from it reads as disabled and a second
   * cut has nothing to find.
   */
  lemma {:induction false} CutIsFinal(text: string)
    requires CutAtMarker(text).Some?
    ensures CutAtMarker(TrimEnd(CutAtMarker(text).value)).None?
    ensures !Contains(TrimEnd(CutAtMarker(text).value), FipsConfig)
  {
    var rest := CutAtMarker(text).value;
    NoMarkerAfterTrim(rest);
    var r := Find(TrimEnd(rest), FipsConfig);
    if r.Some? {
      BlockStartsWithMarker(TrimEnd(rest), r.value);
    }
  }
}
