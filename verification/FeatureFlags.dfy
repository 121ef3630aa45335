/** What the feature header makes of the macros that a program sets, flag by flag and through all
    of its stages: each flag straight from the program's own macros and the platform. */
module FeatureFlags {
  import opened Basics
  import opened Features

  // ---- What the program asks for ------------------------------------------------------------

  /** The defaults are on when a macro asks for them, or when no standard is named at all. */
  predicate DefaultsOn(h: Host, s: Sources) {
    || s.default.Some? || s.bsd.Some? || s.svid.Some? || s.gnu.Some?
    || !(h.strictAnsi || s.isoC99.Some? || s.posix.Some? || s.posixC.Some? || s.xopen.Some?)
  }

  /** No POSIX macro is set, and POSIX comes in all the same. */
  predicate PosixComesIn(h: Host, s: Sources) {
    s.posix.None? && s.posixC.None? && (!h.strictAnsi || (s.xopen.Some? && s.xopen.value >= 500))
  }

  // ---- Standards ----------------------------------------------------------------------------

  lemma PosixFlagsExactly(h: Host, t: Table)
    ensures
      var s, p := t.src, Normalised(h, t).std.posix;
      && (p.misc <==> DefaultsOn(h, s)) && (p.gnu <==> s.gnu.Some?)
      && (p.posix <==>
          || DefaultsOn(h, s) || s.posix.Some? || s.xopen.Some? || PosixComesIn(h, s)
          || (s.posixC.Some? && s.posixC.value >= 1))
      && (p.posix2 <==>
          DefaultsOn(h, s) || s.xopen.Some? || PosixComesIn(h, s) || (s.posixC.Some? && s.posixC.value >= 2))
      && (p.posix199309 <==>
          || DefaultsOn(h, s) || (s.posixC.Some? && s.posixC.value >= 199309)
          || (PosixComesIn(h, s) && (s.xopen.None? || s.xopen.value >= 500)))
      && (p.posix199506 <==>
          || DefaultsOn(h, s) || (s.posixC.Some? && s.posixC.value >= 199506)
          || (PosixComesIn(h, s) && (s.xopen.None? || s.xopen.value >= 500)))
  {
  }

  /** POSIX is in effect as of 2001, or as of 2008. */
  predicate Posix2001(h: Host, s: Sources) {
    || DefaultsOn(h, s) || (s.posixC.Some? && s.posixC.value >= 200112)
    || (PosixComesIn(h, s) && (s.xopen.None? || s.xopen.value >= 600))
  }

  predicate Posix2008(h: Host, s: Sources) {
    || DefaultsOn(h, s) || (s.posixC.Some? && s.posixC.value >= 200809)
    || (PosixComesIn(h, s) && (s.xopen.None? || s.xopen.value >= 700))
  }

  lemma XopenFlagsExactly(h: Host, t: Table)
    ensures
      var s, x := t.src, Normalised(h, t).std.xopen;
      && (x.xopen <==> s.gnu.Some? || s.xopen.Some?)
      && (x.extended <==> s.gnu.Some? || (s.xopen.Some? && (s.xopen.value >= 500 || s.xopenExtended.Some?)))
      && (x.unix98 <==> s.gnu.Some? || (s.xopen.Some? && s.xopen.value >= 500))
      && (x.xopen2k <==> Posix2001(h, s) || (s.xopen.Some? && s.xopen.value >= 600))
      && (x.xopen2kXsi <==> s.gnu.Some? || (s.xopen.Some? && s.xopen.value >= 600))
      && (x.xopen2k8 <==> Posix2008(h, s) || (s.xopen.Some? && s.xopen.value >= 700))
      && (x.xopen2k8Xsi <==> s.gnu.Some? || (s.xopen.Some? && s.xopen.value >= 700))
  {
  }

  /** C99 comes with the later versions of POSIX and X/Open. `_ISOC95_SOURCE` has no effect. */
  lemma LanguageFlagsExactly(h: Host, t: Table)
    ensures
      var s, l := t.src, Normalised(h, t).std.lang;
      var c99 :=
        s.gnu.Some? || s.isoC99.Some? || s.isoC11.Some? || Posix2001(h, s) || (s.xopen.Some? && s.xopen.value >= 600);
      && (l.isoC11 <==> s.gnu.Some? || s.isoC11.Some? || (h.stdcVersion.Some? && h.stdcVersion.value >= 201112))
      && (l.isoC99 <==> c99 || (h.stdcVersion.Some? && h.stdcVersion.value >= 199901))
      && (l.isoC95 <==> c99 || (h.stdcVersion.Some? && h.stdcVersion.value >= 199409))
      && (l.isoCxx11 <==>
          || s.isoCxx11.Some? || s.isoCxx14.Some? || h.gxxCxx0x
          || (h.cplusplus.Some? && h.cplusplus.value >= 201103))
      && (l.isoCxx14 <==> s.isoCxx14.Some? || (h.cplusplus.Some? && h.cplusplus.value >= 201103))
  {
  }

  /** In the kernel the width of file offsets decides, and the configuration where it is not given. */
  predicate Offsets64(h: Host, s: Sources) {
    s.fileOffsetBits == Some(64) || (h.kernel && s.fileOffsetBits != Some(32) && !h.config32BitFs)
  }

  lemma FileFlagsExactly(h: Host, t: Table)
    ensures
      var s, f := t.src, Normalised(h, t).std.files;
      && (f.largefile <==> s.largefile.Some? || s.gnu.Some? || (s.xopen.Some? && s.xopen.value >= 500))
      && (f.largefile64 <==> if h.kernel then Offsets64(h, s) else s.gnu.Some? || s.largefile64.Some?)
      && (f.fileOffset64 <==> Offsets64(h, s))
      && (f.atfile <==> s.atfile.Some? || Posix2008(h, s))
  {
  }

  /** What the header leaves of the source macros themselves. */
  lemma SourcesExactly(h: Host, t: Table)
    ensures
      var s, n := t.src, Normalised(h, t).src;
      && n.posixC == (if DefaultsOn(h, s) then Some(200809)
                      else if !PosixComesIn(h, s) then s.posixC
                      else if s.xopen.None? || s.xopen.value >= 700 then Some(200809)
                      else if s.xopen.value >= 600 then Some(200112)
                      else if s.xopen.value >= 500 then Some(199506)
                      else Some(2))
      && n.posix == (if DefaultsOn(h, s) || PosixComesIn(h, s) then Some(1) else s.posix)
      && n.default == (if DefaultsOn(h, s) then Some(1) else None)
      && n.xopen == (if s.gnu.Some? then Some(700) else s.xopen)
      && n.largefile == (if s.gnu.Some? || (s.xopen.Some? && s.xopen.value >= 500) then Some(1) else s.largefile)
      && n.atfile == (if Posix2008(h, s) then Some(1) else s.atfile)
      && n.fileOffsetBits == (if !h.kernel then s.fileOffsetBits else Some(if Offsets64(h, s) then 64 else 32))
      && (s.gnu.Some? ==>
            n.isoC95 == n.isoC99 == n.isoC11 == n.xopenExtended == n.largefile64 == Some(1))
      && (s.gnu.None? ==>
            && n.isoC95 == s.isoC95 && n.isoC99 == s.isoC99 && n.isoC11 == s.isoC11
            && n.xopenExtended == s.xopenExtended && n.largefile64 == s.largefile64)
      && n.gnu == s.gnu && n.bsd == s.bsd && n.svid == s.svid && n.isoCxx11 == s.isoCxx11 && n.isoCxx14 == s.isoCxx14
      && (Normalised(h, t).implicitly <==>
          || t.implicitly
          || (s.gnu.None? && s.posix.None? && s.posixC.None? && (DefaultsOn(h, s) || PosixComesIn(h, s))))
  {
  }

  // ---- Library and system extensions --------------------------------------------------------

  lemma LibraryExactly(h: Host, t: Table)
    ensures
      var c := Normalised(h, t).crt;
      var kos := h.kos || (!h.cygwin && !h.unix && !h.windows);
      var cygwin, unix := !h.kos && h.cygwin, !h.kos && !h.cygwin && h.unix;
      var windows := !h.kos && !h.cygwin && !h.unix && h.windows;
      && c.kos == kos && c.glc == (kos || unix) && c.cyg == (t.crt.cyg || cygwin)
      && c.dos == (if kos then (if h.arm then None else Some(1))
                   else if windows then Some(if h.tinyC then 1 else 2)
                   else None)
      && c.dosCompat == (t.crt.dosCompat || windows) && c.glcCompat == (t.crt.glcCompat || unix)
      && c.cygCompat == (t.crt.cygCompat || cygwin)
  {
  }

  /** Turning DOS off does not turn its file system off: where the header would do that, it is off
      already. */
  lemma ExtensionsExactly(h: Host, t: Table)
    ensures
      var e, y, c := t.ext, Normalised(h, t).sys, Normalised(h, t).crt;
      && (y.cyg <==> if e.cyg.Some? then e.cyg.value != 0 else c.cyg)
      && (y.dos <==> if e.dos.Some? then e.dos.value != 0 else h.pe && !c.cyg)
      && (y.oldDos <==> e.dos.Some? && e.dos.value >= 2)
      && (y.dosFs <==>
          && !h.kernel
          && if e.dosFs.Some? then e.dosFs.value != 0
             else c.dos.Some? && !c.glc && !c.cyg)
      && (y.kos <==> e.kos.Some?) && (y.utf <==> e.kos.Some? || e.utf.Some?)
      && (y.kxs <==> e.kos.Some? && e.kos.value >= 2)
  {
  }

  /** A width of time_t that the program gives decides. Without one, the kernel asks its
      configuration; elsewhere the 32-bit macro decides, and then the platform. */
  lemma TimeExactly(h: Host, t: Table)
    ensures
      var e, y, n := t.ext, Normalised(h, t).sys, Normalised(h, t);
      var platform64 := y.dos || (!n.crt.glc && n.crt.dos.Some?) || (h.cygwin && h.pointer64);
      var user64 :=
        if e.timeTBits.Some? && e.timeTBits.value != 0 then e.timeTBits.value >= 64
        else !e.use32BitTimeT && platform64;
      var kernel64 := if e.timeTBits.Some? then e.timeTBits.value == 64 else !h.config32BitTime;
      && (y.timeBits64 <==> if h.kernel then kernel64 else user64)
      && (y.time64 <==> if h.kernel then kernel64 else e.time64.Some?)
      && (n.ext.use32BitTimeT <==> !user64)
      && n.ext.timeTBits == (if h.kernel && e.timeTBits.None? then Some(if h.config32BitTime then 32 else 64)
                             else e.timeTBits)
      && n.ext.cyg == e.cyg && n.ext.dos == e.dos && n.ext.dosFs == e.dosFs && n.ext.time64 == e.time64
      && n.ext.kos == e.kos && n.ext.utf == e.utf
  {
  }

  /** The errors, on a platform whose library macros nobody has set by hand. */
  lemma ErrorsExactly(h: Host, t: Table)
    requires NothingHandSet(t.crt)
    ensures
      var n := Normalised(h, t);
      var unix, windows := !h.kos && !h.cygwin && h.unix, !h.kos && !h.cygwin && !h.unix && h.windows;
      Errors(h, n.crt, n.sys) ==
        (if unix && (n.sys.time64 || n.sys.timeBits64) then {NoTime64} else {})
        + (if windows && !n.sys.dosFs then {DosFsRequired, DosFsForcedOn} else {})
        + (if unix && n.sys.dosFs then {DosFsUnsupported, DosFsForcedOff} else {})
        + (if !h.kos && h.cygwin && n.sys.dosFs then {DosFsUnsupported} else {})
  {
    LibraryExactly(h, t);
  }
}
