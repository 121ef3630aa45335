/** The directives of the feature header, in their order, over a macro table that they change in
    place. Each block is proved to leave the closed form of `Features`. */
module FeatureHeader {
  import opened Basics
  import opened Features

  class Preprocessor {
    const h: Host
    var src: Sources
    var std: Standards
    var implicitly: bool
    var crt: Crt
    var ext: Extras
    var sys: System
    var errors: set<Error>

    function Macros(): Table
      reads this
    {
      Table(src, std, implicitly, crt, ext, sys)
    }

    constructor (h: Host, t: Table)
      ensures this.h == h && Macros() == t && errors == {}
    {
      this.h := h;
      src, std, implicitly, crt, ext, sys, errors := t.src, t.std, t.implicitly, t.crt, t.ext, t.sys, {};
    }

    /** Which C library is linked, and the compatibility mode */
    method DetectCrt()
      modifies this`crt
      ensures crt == CrtAfter(h, old(crt))
    {
      var c := crt.(dos := None, glc := false, kos := false);
      if h.kos {
        c := c.(kos := true);
      } else if h.cygwin {
        c := c.(cyg := true);
      } else if h.unix {
        c := c.(glc := true);
      } else if h.windows {
        if h.tinyC { c := c.(dos := Some(1)); } else { c := c.(dos := Some(2)); }
      } else {
        c := c.(kos := true);
      }
      if c.kos {
        if !h.arm { c := c.(dos := Some(1)); }
        c := c.(glc := true);
      }
      if !c.kos {
        if c.dos.Some? && !c.glc {
          c := c.(dosCompat := true);
        } else if c.glc && c.dos.None? {
          c := c.(glcCompat := true);
        } else if c.cyg {
          c := c.(cygCompat := true);
        }
      }
      crt := c;
    }

    /** The macros that stand for several others */
    method DefaultSources()
      modifies this`src
      ensures src == Defaulted(h, old(src))
    {
      var s := src;
      if (s.bsd.Some? || s.svid.Some?) && s.default.None? {
        s := s.(default := DEFINED);
      }
      if s.gnu.Some? {
        s := s.(isoC95 := DEFINED, isoC99 := DEFINED, isoC11 := DEFINED);
        s := s.(posix := DEFINED, posixC := Some(200809), xopen := Some(700), xopenExtended := DEFINED);
        s := s.(largefile64 := DEFINED, default := DEFINED, atfile := DEFINED);
      }
      if s.default.Some? || (!h.strictAnsi && s.isoC99.None? && s.posix.None? && s.posixC.None? && s.xopen.None?) {
        s := s.(default := DEFINED);
      }
      src := s;
    }

    /** POSIX, where something else brings it in */
    method ImplyPosix()
      modifies this`src, this`implicitly
      ensures src == Implied(h, old(src))
      ensures implicitly <==>
              || old(implicitly)
              || (old(src).posix.None? && old(src).posixC.None?
                  && (old(src).default.Some? || ImpliesPosix(h, old(src))))
    {
      var posix, posixC := src.posix, src.posixC;
      if src.default.Some? {
        if posix.None? && posixC.None? { implicitly := true; }
        posix, posixC := DEFINED, Some(200809);
      }
      if (!h.strictAnsi || AtLeast(src.xopen, 500)) && posix.None? && posixC.None? {
        posix := DEFINED;
        if src.xopen.Some? && src.xopen.value < 500 {
          posixC := Some(2);
        } else if src.xopen.Some? && src.xopen.value < 600 {
          posixC := Some(199506);
        } else if src.xopen.Some? && src.xopen.value < 700 {
          posixC := Some(200112);
        } else {
          posixC := Some(200809);
        }
        implicitly := true;
      }
      src := src.(posix := posix, posixC := posixC);
    }

    /** The language standards */
    method LanguageFlags() returns (isoC11: bool, isoC99: bool, isoC95: bool, isoCxx11: bool, isoCxx14: bool)
      ensures isoC11 == (src.isoC11.Some? || AtLeast(h.stdcVersion, 201112))
      ensures isoC99 == (src.isoC99.Some? || src.isoC11.Some? || AtLeast(h.stdcVersion, 199901))
      ensures isoC95 == (src.isoC99.Some? || src.isoC11.Some? || AtLeast(h.stdcVersion, 199409))
      ensures isoCxx14 == (src.isoCxx14.Some? || AtLeast(h.cplusplus, 201103))
      ensures isoCxx11 == (isoCxx14 || src.isoCxx11.Some? || h.gxxCxx0x)
    {
      isoC11, isoC99, isoC95, isoCxx11, isoCxx14 := false, false, false, false, false;
      if src.isoC11.Some? || AtLeast(h.stdcVersion, 201112) { isoC11 := true; }
      if src.isoC99.Some? || src.isoC11.Some? || AtLeast(h.stdcVersion, 199901) { isoC99 := true; }
      if src.isoC99.Some? || src.isoC11.Some? || AtLeast(h.stdcVersion, 199409) { isoC95 := true; }
      if src.isoCxx11.Some? || src.isoCxx14.Some? || h.gxxCxx0x || AtLeast(h.cplusplus, 201103) { isoCxx11 := true; }
      if src.isoCxx14.Some? || AtLeast(h.cplusplus, 201103) { isoCxx14 := true; }
    }

    /** The versions of POSIX, the later of which bring C99 and parts of X/Open with them */
    method PosixFlags() returns (posix: Posix, c99: bool, xopen2k: bool, xopen2k8: bool, atfile: Macro)
      ensures posix == Flagged(h, src).posix && atfile == Completed(src).atfile
      ensures c99 == xopen2k == AtLeast(src.posixC, 200112) && xopen2k8 == AtLeast(src.posixC, 200809)
    {
      var plain, posix2, posix199309, posix199506 := false, false, false, false;
      c99, xopen2k, xopen2k8, atfile := false, false, false, src.atfile;
      if src.posix.Some? || AtLeast(src.posixC, 1) || src.xopen.Some? { plain := true; }
      if src.xopen.Some? || AtLeast(src.posixC, 2) { posix2 := true; }
      if AtLeast(src.posixC, 199309) { posix199309 := true; }
      if AtLeast(src.posixC, 199506) { posix199506 := true; }
      if AtLeast(src.posixC, 200112) { xopen2k, c99 := true, true; }
      if AtLeast(src.posixC, 200809) { xopen2k8, atfile := true, DEFINED; }
      posix := Posix(plain, posix2, posix199309, posix199506, src.default.Some?, src.gnu.Some?);
    }

    /** The versions of X/Open, on top of what POSIX has brought in */
    method XopenFlags(fromPosix2k: bool, fromPosix2k8: bool) returns (flags: Xopen, c99: bool, largefile: Macro)
      requires fromPosix2k == AtLeast(src.posixC, 200112) && fromPosix2k8 == AtLeast(src.posixC, 200809)
      ensures flags == Flagged(h, src).xopen && c99 == AtLeast(src.xopen, 600) && largefile == Completed(src).largefile
    {
      var xopen, extended, unix98, xopen2kXsi, xopen2k8Xsi := false, false, false, false, false;
      var xopen2k, xopen2k8 := fromPosix2k, fromPosix2k8;
      c99, largefile := false, src.largefile;
      if src.xopen.Some? {
        xopen := true;
        if src.xopen.value >= 500 {
          extended, unix98, largefile := true, true, DEFINED;
          if src.xopen.value >= 600 {
            if src.xopen.value >= 700 { xopen2k8, xopen2k8Xsi := true, true; }
            xopen2k, xopen2kXsi, c99 := true, true, true;
          }
        } else if src.xopenExtended.Some? {
          extended := true;
        }
      }
      flags := Xopen(xopen, extended, unix98, xopen2k, xopen2kXsi, xopen2k8, xopen2k8Xsi);
    }

    /** The flags of the standards, all of which start undefined */
    method SetStandards()
      modifies this`src, this`std
      ensures src == Completed(old(src)) && std == Flagged(h, old(src))
    {
      var isoC11, isoC99, isoC95, isoCxx11, isoCxx14 := LanguageFlags();
      var posix, posixC99, xopen2k, xopen2k8, atfile := PosixFlags();
      var xopen, xopenC99, largefile := XopenFlags(xopen2k, xopen2k8);
      if posixC99 || xopenC99 { isoC95, isoC99 := true, true; }
      std := Standards(
        Language(isoC11, isoC99, isoC95, isoCxx11, isoCxx14), posix, xopen,
        Files(largefile.Some?, src.largefile64.Some?, src.fileOffsetBits == Some(64), atfile.Some?));
      src := src.(atfile := atfile, largefile := largefile);
    }

    /** DOS, DOS file system and Cygwin */
    method SelectDos() returns (cyg: bool, dos: bool, oldDos: bool, dosFs: bool)
      ensures cyg == if ext.cyg.Some? then ext.cyg.value != 0 else crt.cyg
      ensures dos == UseDos(h, crt, ext) && oldDos == AtLeast(ext.dos, 2) && dosFs == UseDosFs(crt, ext)
    {
      cyg, dos, oldDos, dosFs := false, false, false, false;
      if crt.dos.Some? && !crt.glc && !crt.cyg { dosFs := true; }
      if h.pe && !crt.cyg { dos := true; }
      if crt.cyg { cyg := true; }
      if ext.cyg.Some? {
        cyg := false;
        if ext.cyg.value != 0 { cyg := true; }
      }
      if ext.dos.Some? {
        dos := false;
        if ext.dos.value == 0 {
          if crt.kos { dosFs := false; }
        } else {
          dos := true;
        }
        if ext.dos.value >= 2 { oldDos := true; }
      }
      if ext.dosFs.Some? {
        dosFs := false;
        if ext.dosFs.value != 0 { dosFs := true; }
      }
    }

    /** The width of time_t */
    method SelectTime(dos: bool) returns (time64: bool, timeBits64: bool, use32BitTimeT: bool)
      requires dos == UseDos(h, crt, ext)
      ensures time64 == ext.time64.Some? && timeBits64 == UseTimeBits64(h, crt, ext) && use32BitTimeT == !timeBits64
    {
      time64, timeBits64, use32BitTimeT := false, false, ext.use32BitTimeT;
      if dos || (!crt.glc && crt.dos.Some?) {
        timeBits64 := true;
      } else if h.cygwin {
        if h.pointer64 { timeBits64 := true; }
      }
      if ext.time64.Some? { time64 := true; }
      if AtLeast(ext.timeTBits, 64) {
        timeBits64 := true;
      } else if Nonzero(ext.timeTBits) && ext.timeTBits.value < 64 {
        timeBits64 := false;
      } else if use32BitTimeT {
        timeBits64 := false;
      }
      use32BitTimeT := false;
      if !timeBits64 { use32BitTimeT := true; }
    }

    /** KOS extensions */
    method SelectKos() returns (kos: bool, utf: bool, kxs: bool)
      ensures kos == ext.kos.Some? && utf == (ext.kos.Some? || ext.utf.Some?) && kxs == AtLeast(ext.kos, 2)
    {
      kos, utf, kxs := false, false, false;
      if ext.kos.Some? {
        kos, utf := true, true;
        if ext.kos.value >= 2 { kxs := true; }
      }
      if ext.utf.Some? { utf := true; }
    }

    /** The kernel's own configuration */
    method ConfigureKernel()
      modifies this`src, this`std, this`ext, this`sys
      ensures Macros() == KernelTable(h, old(Macros()))
    {
      var dosFs, time64, timeBits64, largefile64, fileOffset64 := false, false, false, false, false;
      var offset, time := src.fileOffsetBits, ext.timeTBits;
      if offset.Some? && offset.value != 32 && offset.value != 64 { offset := None; }
      if offset.None? {
        if h.config32BitFs { offset := Some(32); } else { offset := Some(64); }
      }
      if time.None? {
        if h.config32BitTime { time := Some(32); } else { time := Some(64); }
      }
      if offset == Some(64) { largefile64, fileOffset64 := true, true; }
      if time == Some(64) { time64, timeBits64 := true, true; }
      src, ext := src.(fileOffsetBits := offset), ext.(timeTBits := time);
      std := std.(files := std.files.(largefile64 := largefile64, fileOffset64 := fileOffset64));
      sys := sys.(dosFs := dosFs, time64 := time64, timeBits64 := timeBits64);
    }

    /** The `#error` directives */
    method Check()
      requires errors == {}
      modifies this`errors
      ensures errors == Errors(h, crt, sys)
    {
      if (crt.dos.None? && !crt.kos) && (sys.time64 || sys.timeBits64) && !h.cygwin { errors := errors + {NoTime64}; }
      if !crt.kos {
        if crt.dos.Some? && !crt.glc {
          if !sys.dosFs { errors := errors + {DosFsRequired}; }
        } else if (crt.glc || crt.cyg) && crt.dos.None? {
          if sys.dosFs { errors := errors + {DosFsUnsupported}; }
        }
      }
      if crt.dosCompat {
        if !sys.dosFs { errors := errors + {DosFsForcedOn}; }
      } else if crt.glcCompat {
        if sys.dosFs { errors := errors + {DosFsForcedOff}; }
      }
    }

    /** The standards block */
    method NormaliseStandards()
      modifies this`src, this`std, this`implicitly
      ensures src == SourcesAfter(h, old(src)) && std == StandardsAfter(h, old(src))
      ensures implicitly <==> old(implicitly) || PosixUnasked(h, old(src))
    {
      DefaultSources();
      ImplyPosix();
      SetStandards();
      StandardsInStages(h, old(src));
    }

    /** The system extensions */
    method SelectSystem()
      modifies this`ext, this`sys
      ensures sys == SystemAfter(h, crt, old(ext))
      ensures ext == old(ext).(use32BitTimeT := !UseTimeBits64(h, crt, old(ext)))
    {
      var cyg, dos, oldDos, dosFs := SelectDos();
      var time64, timeBits64, use32BitTimeT := SelectTime(dos);
      var kos, utf, kxs := SelectKos();
      ext := ext.(use32BitTimeT := use32BitTimeT);
      sys := System(cyg, dos, oldDos, dosFs, time64, timeBits64, kos, utf, kxs);
    }

    /** The whole header */
    method Normalise()
      requires errors == {}
      modifies this
      ensures Macros() == Normalised(h, old(Macros()))
      ensures errors == Errors(h, crt, sys)
    {
      DetectCrt();
      NormaliseStandards();
      SelectSystem();
      assert Macros() == UserTable(h, old(Macros()));
      if h.kernel { ConfigureKernel(); }
      Check();
    }
  }
}
