/** The feature-test normaliser of the system headers: a sequence of `#define` and `#undef`
    directives over one table of macros, in which later conditions read what earlier directives
    have rewritten. This module gives the table that comes out in closed form, and its laws. */
module Features {
  import opened Basics

  /** The value of a macro: undefined, or an integer. An empty macro is 0, as in `X+0`. */
  type Macro = Option<int>

  predicate AtLeast(m: Macro, n: int) {
    m.Some? && m.value >= n
  }

  predicate Nonzero(m: Macro) {
    m.Some? && m.value != 0
  }

  const DEFINED: Macro := Some(1)

  /** What the compiler and the platform define. Names that occur only in one and the same
      disjunction are one member here. */
  datatype Host = Host(
    kos: bool, cygwin: bool, unix: bool, windows: bool, tinyC: bool, arm: bool, pe: bool, kernel: bool,
    pointer64: bool, strictAnsi: bool, stdcVersion: Macro, cplusplus: Macro, gxxCxx0x: bool,
    config32BitFs: bool, config32BitTime: bool)

  /** The `_*_SOURCE` macros of the standards block */
  datatype Sources = Sources(
    gnu: Macro, bsd: Macro, svid: Macro, default: Macro, isoC95: Macro, isoC99: Macro, isoC11: Macro,
    isoCxx11: Macro, isoCxx14: Macro, posix: Macro, posixC: Macro, xopen: Macro, xopenExtended: Macro,
    largefile: Macro, largefile64: Macro, fileOffsetBits: Macro, atfile: Macro)

  /** The `__USE_*` flags of the standards block */
  datatype Language = Language(isoC11: bool, isoC99: bool, isoC95: bool, isoCxx11: bool, isoCxx14: bool)
  datatype Posix = Posix(posix: bool, posix2: bool, posix199309: bool, posix199506: bool, misc: bool, gnu: bool)
  datatype Xopen = Xopen(
    xopen: bool, extended: bool, unix98: bool, xopen2k: bool, xopen2kXsi: bool, xopen2k8: bool, xopen2k8Xsi: bool)
  datatype Files = Files(largefile: bool, largefile64: bool, fileOffset64: bool, atfile: bool)
  datatype Standards = Standards(lang: Language, posix: Posix, xopen: Xopen, files: Files)

  /** The C library to link and the compatibility mode that goes with it */
  datatype Crt = Crt(dos: Macro, glc: bool, kos: bool, cyg: bool, dosCompat: bool, glcCompat: bool, cygCompat: bool)

  /** The macros that select system extensions, and the flags they control */
  datatype Extras = Extras(cyg: Macro, dos: Macro, dosFs: Macro, time64: Macro, timeTBits: Macro, use32BitTimeT: bool,
                           kos: Macro, utf: Macro)

  datatype System = System(cyg: bool, dos: bool, oldDos: bool, dosFs: bool, time64: bool, timeBits64: bool,
                           kos: bool, utf: bool, kxs: bool)

  /** The macro table. `implicitly` is `__USE_POSIX_IMPLICITLY`, which alone of all flags is never
      undefined again. */
  datatype Table = Table(src: Sources, std: Standards, implicitly: bool, crt: Crt, ext: Extras, sys: System)

  // ---- C library ----------------------------------------------------------------------------

  /** The platform decides, the first that applies in this order. */
  predicate OnKos(h: Host) { h.kos || !(h.cygwin || h.unix || h.windows) }
  predicate OnCygwin(h: Host) { !h.kos && h.cygwin }
  predicate OnUnix(h: Host) { !h.kos && !h.cygwin && h.unix }
  predicate OnWindows(h: Host) { !h.kos && !h.cygwin && !h.unix && h.windows }

  function CrtAfter(h: Host, c: Crt): Crt {
    var dos: Macro :=
      if OnKos(h) && !h.arm then Some(1)
      else if OnWindows(h) then Some(if h.tinyC then 1 else 2)
      else None;
    var glc := OnKos(h) || OnUnix(h);
    var cyg := c.cyg || OnCygwin(h);
    Crt(dos, glc, OnKos(h), cyg,
        c.dosCompat || OnWindows(h), c.glcCompat || OnUnix(h), c.cygCompat || OnCygwin(h))
  }

  // ---- Standards ----------------------------------------------------------------------------

  /** Nothing asks for a particular standard. */
  predicate NoStandardNamed(h: Host, s: Sources) {
    !h.strictAnsi && s.isoC99.None? && s.posix.None? && s.posixC.None? && s.xopen.None?
  }

  predicate WantsDefault(h: Host, s: Sources) {
    s.gnu.Some? || s.default.Some? || s.bsd.Some? || s.svid.Some? || NoStandardNamed(h, s)
  }

  function XopenLevel(s: Sources): Macro {
    if s.gnu.Some? then Some(700) else s.xopen
  }

  /** POSIX comes in although no POSIX macro is set. */
  predicate ImpliesPosix(h: Host, s: Sources) {
    s.posix.None? && s.posixC.None? && (!h.strictAnsi || AtLeast(s.xopen, 500))
  }

  function PosixLevel(h: Host, s: Sources): Macro {
    if WantsDefault(h, s) then Some(200809)
    else if ImpliesPosix(h, s) then ImpliedLevel(s.xopen)
    else s.posixC
  }

  /** The version of POSIX that a version of X/Open brings with it. */
  function ImpliedLevel(xopen: Macro): Macro {
    if xopen.None? || xopen.value >= 700 then Some(200809)
    else if xopen.value >= 600 then Some(200112)
    else if xopen.value >= 500 then Some(199506)
    else Some(2)
  }

  function SourcesAfter(h: Host, s: Sources): Sources {
    var gnu := s.gnu.Some?;
    s.(default := if WantsDefault(h, s) then DEFINED else None,
       isoC95 := if gnu then DEFINED else s.isoC95,
       isoC99 := if gnu then DEFINED else s.isoC99,
       isoC11 := if gnu then DEFINED else s.isoC11,
       posix := if WantsDefault(h, s) || ImpliesPosix(h, s) then DEFINED else s.posix,
       posixC := PosixLevel(h, s),
       xopen := XopenLevel(s),
       xopenExtended := if gnu then DEFINED else s.xopenExtended,
       largefile := if AtLeast(XopenLevel(s), 500) then DEFINED else s.largefile,
       largefile64 := if gnu then DEFINED else s.largefile64,
       atfile := if gnu || AtLeast(PosixLevel(h, s), 200809) then DEFINED else s.atfile)
  }

  /** The sources once the combined macros have been spelled out ... */
  function Defaulted(h: Host, s: Sources): Sources {
    var gnu := s.gnu.Some?;
    s.(default := if WantsDefault(h, s) then DEFINED else None,
       isoC95 := if gnu then DEFINED else s.isoC95,
       isoC99 := if gnu then DEFINED else s.isoC99,
       isoC11 := if gnu then DEFINED else s.isoC11,
       posix := if gnu then DEFINED else s.posix,
       posixC := if gnu then Some(200809) else s.posixC,
       xopen := XopenLevel(s),
       xopenExtended := if gnu then DEFINED else s.xopenExtended,
       largefile64 := if gnu then DEFINED else s.largefile64,
       atfile := if gnu then DEFINED else s.atfile)
  }

  /** ... and once POSIX has been brought in where it is implied. */
  function Implied(h: Host, s: Sources): Sources {
    s.(posix := if s.default.Some? || ImpliesPosix(h, s) then DEFINED else s.posix,
       posixC :=
         if s.default.Some? then Some(200809)
         else if ImpliesPosix(h, s) then ImpliedLevel(s.xopen)
         else s.posixC)
  }

  /** ... and once the flags have been set, which defines two more. */
  function Completed(s: Sources): Sources {
    s.(atfile := if AtLeast(s.posixC, 200809) then DEFINED else s.atfile,
       largefile := if AtLeast(s.xopen, 500) then DEFINED else s.largefile)
  }

  /** The flags as the levels of POSIX and X/Open decide them. */
  function Flagged(h: Host, s: Sources): Standards {
    var c99 := s.isoC11.Some? || s.isoC99.Some? || AtLeast(s.posixC, 200112) || AtLeast(s.xopen, 600);
    Standards(
      Language(
        isoC11 := s.isoC11.Some? || AtLeast(h.stdcVersion, 201112),
        isoC99 := c99 || AtLeast(h.stdcVersion, 199901),
        isoC95 := c99 || AtLeast(h.stdcVersion, 199409),
        isoCxx11 := s.isoCxx11.Some? || s.isoCxx14.Some? || h.gxxCxx0x || AtLeast(h.cplusplus, 201103),
        isoCxx14 := s.isoCxx14.Some? || AtLeast(h.cplusplus, 201103)),
      Posix(
        posix := s.posix.Some? || AtLeast(s.posixC, 1) || s.xopen.Some?,
        posix2 := s.xopen.Some? || AtLeast(s.posixC, 2),
        posix199309 := AtLeast(s.posixC, 199309),
        posix199506 := AtLeast(s.posixC, 199506),
        misc := s.default.Some?,
        gnu := s.gnu.Some?),
      Xopen(
        xopen := s.xopen.Some?,
        extended := AtLeast(s.xopen, 500) || (s.xopen.Some? && s.xopenExtended.Some?),
        unix98 := AtLeast(s.xopen, 500),
        xopen2k := AtLeast(s.posixC, 200112) || AtLeast(s.xopen, 600),
        xopen2kXsi := AtLeast(s.xopen, 600),
        xopen2k8 := AtLeast(s.posixC, 200809) || AtLeast(s.xopen, 700),
        xopen2k8Xsi := AtLeast(s.xopen, 700)),
      Files(
        largefile := s.largefile.Some? || AtLeast(s.xopen, 500),
        largefile64 := s.largefile64.Some?,
        fileOffset64 := s.fileOffsetBits == Some(64),
        atfile := s.atfile.Some? || AtLeast(s.posixC, 200809)))
  }

  function StandardsAfter(h: Host, s: Sources): Standards {
    Flagged(h, SourcesAfter(h, s))
  }

  /** POSIX comes in, by a default or by X/Open, and nobody asked for it. */
  predicate PosixUnasked(h: Host, s: Sources) {
    s.gnu.None? && s.posix.None? && s.posixC.None? && (WantsDefault(h, s) || ImpliesPosix(h, s))
  }

  /** The three stages of the header come to the closed form. */
  lemma StandardsInStages(h: Host, s: Sources)
    ensures
      var d := Defaulted(h, s);
      var i := Implied(h, d);
      && Completed(i) == SourcesAfter(h, s)
      && Flagged(h, i) == StandardsAfter(h, s)
      && (PosixUnasked(h, s) <==> d.posix.None? && d.posixC.None? && (d.default.Some? || ImpliesPosix(h, d)))
  {
    PosixIsImplied(h, s);
  }

  lemma PosixIsImplied(h: Host, s: Sources)
    ensures
      var s' := Implied(h, Defaulted(h, s));
      && s' == SourcesAfter(h, s).(largefile := s.largefile, atfile := Defaulted(h, s).atfile)
      && s'.posixC == PosixLevel(h, s) && s'.xopen == XopenLevel(s)
  {
  }

  // ---- System extensions, in user space -----------------------------------------------------

  predicate UseDos(h: Host, c: Crt, e: Extras) {
    if e.dos.Some? then e.dos.value != 0 else h.pe && !c.cyg
  }

  predicate UseDosFs(c: Crt, e: Extras) {
    if e.dosFs.Some? then e.dosFs.value != 0
    else c.dos.Some? && !c.glc && !c.cyg && !(e.dos == Some(0) && c.kos)
  }

  /** The width of time_t: an explicit width decides, then the 32-bit macro, then the library. */
  predicate UseTimeBits64(h: Host, c: Crt, e: Extras) {
    if Nonzero(e.timeTBits) then e.timeTBits.value >= 64
    else !e.use32BitTimeT && (UseDos(h, c, e) || (!c.glc && c.dos.Some?) || (h.cygwin && h.pointer64))
  }

  function SystemAfter(h: Host, c: Crt, e: Extras): System {
    System(
      cyg := if e.cyg.Some? then e.cyg.value != 0 else c.cyg,
      dos := UseDos(h, c, e),
      oldDos := AtLeast(e.dos, 2),
      dosFs := UseDosFs(c, e),
      time64 := e.time64.Some?,
      timeBits64 := UseTimeBits64(h, c, e),
      kos := e.kos.Some?,
      utf := e.kos.Some? || e.utf.Some?,
      kxs := AtLeast(e.kos, 2))
  }

  // ---- The whole normaliser -----------------------------------------------------------------

  function UserTable(h: Host, t: Table): Table {
    var crt := CrtAfter(h, t.crt);
    Table(SourcesAfter(h, t.src), StandardsAfter(h, t.src), t.implicitly || PosixUnasked(h, t.src), crt,
          t.ext.(use32BitTimeT := !UseTimeBits64(h, crt, t.ext)), SystemAfter(h, crt, t.ext))
  }

  /** Inside the kernel the configuration takes over file offsets and time. */
  function KernelTable(h: Host, t: Table): Table {
    var bits := t.src.fileOffsetBits;
    var offset := if bits == Some(32) || bits == Some(64) then bits else Some(if h.config32BitFs then 32 else 64);
    var time := if t.ext.timeTBits.Some? then t.ext.timeTBits else Some(if h.config32BitTime then 32 else 64);
    t.(src := t.src.(fileOffsetBits := offset),
       std := t.std.(files := t.std.files.(largefile64 := offset == Some(64), fileOffset64 := offset == Some(64))),
       ext := t.ext.(timeTBits := time),
       sys := t.sys.(dosFs := false, time64 := time == Some(64), timeBits64 := time == Some(64)))
  }

  function Normalised(h: Host, t: Table): Table {
    var u := UserTable(h, t);
    if h.kernel then KernelTable(h, u) else u
  }

  datatype Error = NoTime64 | DosFsRequired | DosFsUnsupported | DosFsForcedOn | DosFsForcedOff

  /** The `#error` directives that a table runs into. */
  function Errors(h: Host, c: Crt, s: System): set<Error> {
    (if c.dos.None? && !c.kos && (s.time64 || s.timeBits64) && !h.cygwin then {NoTime64} else {})
    + (if !c.kos && c.dos.Some? && !c.glc && !s.dosFs then {DosFsRequired} else {})
    + (if !c.kos && c.dos.None? && (c.glc || c.cyg) && s.dosFs then {DosFsUnsupported} else {})
    + (if c.dosCompat && !s.dosFs then {DosFsForcedOn} else {})
    + (if !c.dosCompat && c.glcCompat && s.dosFs then {DosFsForcedOff} else {})
  }

  // ---- Running it again ---------------------------------------------------------------------

  lemma SourcesSettle(h: Host, s: Sources)
    ensures
      var s' := SourcesAfter(h, s);
      && WantsDefault(h, s') == WantsDefault(h, s)
      && PosixLevel(h, s') == PosixLevel(h, s) && XopenLevel(s') == XopenLevel(s)
      && SourcesAfter(h, s') == s' && !PosixUnasked(h, s')
  {
  }

  lemma SystemSettles(h: Host, c: Crt, e: Extras)
    ensures
      var e' := e.(use32BitTimeT := !UseTimeBits64(h, c, e));
      UseTimeBits64(h, c, e') == UseTimeBits64(h, c, e) && SystemAfter(h, c, e') == SystemAfter(h, c, e)
  {
  }

  lemma UserTableSettles(h: Host, t: Table)
    ensures UserTable(h, UserTable(h, t)) == UserTable(h, t)
  {
    SourcesSettle(h, t.src);
    SystemSettles(h, CrtAfter(h, t.crt), t.ext);
  }

  /** In user space a second run changes nothing in the whole table: no flag, and no macro that
      the first run rewrote, time_t's mutually dependent pair included. */
  lemma UserRunIsIdempotent(h: Host, t: Table)
    requires !h.kernel
    ensures Normalised(h, Normalised(h, t)) == Normalised(h, t)
  {
    UserTableSettles(h, t);
  }

  lemma FileOffsetIsSeparate(h: Host, s: Sources, bits: Macro)
    ensures SourcesAfter(h, s.(fileOffsetBits := bits)) == SourcesAfter(h, s).(fileOffsetBits := bits)
  {
  }

  lemma KernelStandardsSettle(h: Host, u: Table)
    requires UserTable(h, u) == u
    ensures
      var once := KernelTable(h, u);
      var again := UserTable(h, once);
      && again.src == once.src && again.crt == once.crt && again.implicitly == once.implicitly
      && again.std == u.std.(files := u.std.files.(fileOffset64 := once.std.files.fileOffset64))
  {
    var once := KernelTable(h, u);
    var s := u.src.(fileOffsetBits := once.src.fileOffsetBits);
    FileOffsetIsSeparate(h, u.src, once.src.fileOffsetBits);
    assert Flagged(h, s).files == u.std.files.(fileOffset64 := s.fileOffsetBits == Some(64));
  }

  lemma KernelSystemSettles(h: Host, u: Table)
    requires UserTable(h, u) == u
    ensures
      var once := KernelTable(h, u);
      var again := UserTable(h, once);
      && again.sys == u.sys.(timeBits64 := again.sys.timeBits64)
      && again.ext == once.ext.(use32BitTimeT := !again.sys.timeBits64)
      && (again.sys.timeBits64 == u.sys.timeBits64 <==>
          (u.ext.timeTBits.None? ==> u.sys.timeBits64 == !h.config32BitTime))
  {
  }

  /** In the kernel a second run settles on the same flags. It may leave `_USE_32BIT_TIME_T` in
      another state, and does so exactly when the width of time_t is left to the configuration
      and that disagrees with the default outside the kernel. */
  lemma KernelRunIsIdempotentUpToTimeT(h: Host, t: Table)
    requires h.kernel
    ensures
      var once := Normalised(h, t);
      var twice := Normalised(h, once);
      && twice == once.(ext := once.ext.(use32BitTimeT := twice.ext.use32BitTimeT))
      && (twice == once <==>
          (t.ext.timeTBits.None? ==> UseTimeBits64(h, CrtAfter(h, t.crt), t.ext) == !h.config32BitTime))
  {
    var u := UserTable(h, t);
    UserTableSettles(h, t);
    SecondKernelRun(h, u);
  }

  lemma SecondKernelRun(h: Host, u: Table)
    requires UserTable(h, u) == u && u.ext.use32BitTimeT == !u.sys.timeBits64
    ensures
      var once := KernelTable(h, u);
      var twice := KernelTable(h, UserTable(h, once));
      && twice == once.(ext := once.ext.(use32BitTimeT := twice.ext.use32BitTimeT))
      && (twice == once <==> (u.ext.timeTBits.None? ==> u.sys.timeBits64 == !h.config32BitTime))
  {
    KernelStandardsSettle(h, u);
    KernelSystemSettles(h, u);
    KernelOverrides(h, u, UserTable(h, KernelTable(h, u)));
  }

  /** The kernel's configuration overrides whatever the user-space part makes of its own output. */
  lemma KernelOverrides(h: Host, u: Table, again: Table)
    requires
      var once := KernelTable(h, u);
      && again.src == once.src && again.crt == once.crt && again.implicitly == once.implicitly
      && again.std == u.std.(files := u.std.files.(fileOffset64 := once.std.files.fileOffset64))
      && again.sys == u.sys.(timeBits64 := again.sys.timeBits64)
      && again.ext == once.ext.(use32BitTimeT := !again.sys.timeBits64)
    ensures
      var once := KernelTable(h, u);
      KernelTable(h, again) == once.(ext := again.ext)
  {
  }

  // ---- Order --------------------------------------------------------------------------------

  /** Every flag of `a` is one of `b`. */
  predicate Within(a: Standards, b: Standards) {
    && (a.lang.isoC11 ==> b.lang.isoC11) && (a.lang.isoC99 ==> b.lang.isoC99) && (a.lang.isoC95 ==> b.lang.isoC95)
    && (a.lang.isoCxx11 ==> b.lang.isoCxx11) && (a.lang.isoCxx14 ==> b.lang.isoCxx14)
    && (a.posix.posix ==> b.posix.posix) && (a.posix.posix2 ==> b.posix.posix2)
    && (a.posix.posix199309 ==> b.posix.posix199309) && (a.posix.posix199506 ==> b.posix.posix199506)
    && (a.posix.misc ==> b.posix.misc) && (a.posix.gnu ==> b.posix.gnu)
    && (a.xopen.xopen ==> b.xopen.xopen) && (a.xopen.extended ==> b.xopen.extended)
    && (a.xopen.unix98 ==> b.xopen.unix98)
    && (a.xopen.xopen2k ==> b.xopen.xopen2k) && (a.xopen.xopen2kXsi ==> b.xopen.xopen2kXsi)
    && (a.xopen.xopen2k8 ==> b.xopen.xopen2k8) && (a.xopen.xopen2k8Xsi ==> b.xopen.xopen2k8Xsi)
    && (a.files.largefile ==> b.files.largefile) && (a.files.largefile64 ==> b.files.largefile64)
    && (a.files.fileOffset64 ==> b.files.fileOffset64) && (a.files.atfile ==> b.files.atfile)
  }

  /** Raising a version that is set already takes no flag away. */
  lemma RaisingPosixKeepsFlags(h: Host, s: Sources, v: int)
    requires s.posixC.Some? && s.posixC.value <= v
    ensures Within(StandardsAfter(h, s), StandardsAfter(h, s.(posixC := Some(v))))
  {
  }

  lemma RaisingXopenKeepsFlags(h: Host, s: Sources, v: int)
    requires s.xopen.Some? && s.xopen.value <= v
    ensures Within(StandardsAfter(h, s), StandardsAfter(h, s.(xopen := Some(v))))
    ensures PosixUnasked(h, s) ==> PosixUnasked(h, s.(xopen := Some(v)))
  {
  }

  /** Adding `_GNU_SOURCE` takes no flag away but the one that says POSIX came in by itself. */
  lemma AddingGnuKeepsFlags(h: Host, s: Sources)
    ensures Within(StandardsAfter(h, s), StandardsAfter(h, s.(gnu := DEFINED)))
    ensures !PosixUnasked(h, s.(gnu := DEFINED))
  {
  }

  /** Setting `_XOPEN_SOURCE` where it was not set can take flags away. It does exactly when the
      defaults were on only because no standard had been named, or when POSIX had come in by
      itself at a later version than the one named now brings. */
  lemma NamingXopenMayDropDefaults(h: Host, s: Sources, v: int)
    requires s.xopen.None?
    ensures
      Within(StandardsAfter(h, s), StandardsAfter(h, s.(xopen := Some(v)))) <==>
      || (s.gnu.Some? || s.default.Some? || s.bsd.Some? || s.svid.Some?)
      || (!NoStandardNamed(h, s) && (!ImpliesPosix(h, s) || v >= 700))
  {
  }

  /** The flags come in chains. */
  lemma Chains(h: Host, s: Sources)
    ensures
      var Standards(l, p, x, f) := StandardsAfter(h, s);
      && (x.xopen2k8 ==> x.xopen2k) && (x.xopen2k ==> l.isoC99) && (l.isoC99 ==> l.isoC95)
      && (p.posix199506 ==> p.posix199309) && (p.posix199309 ==> p.posix2) && (p.posix2 ==> p.posix)
      && (x.xopen2k8Xsi ==> x.xopen2kXsi) && (x.xopen2kXsi ==> x.unix98) && (x.unix98 ==> x.extended && f.largefile)
      && (x.extended ==> x.xopen) && (x.xopen2k ==> p.posix2) && (p.gnu ==> p.misc && x.xopen2k8Xsi && l.isoC11)
  {
  }

  // ---- Compatibility modes and errors -------------------------------------------------------

  predicate NothingHandSet(c: Crt) {
    !c.cyg && !c.dosCompat && !c.glcCompat && !c.cygCompat
  }

  /** Every platform other than KOS itself gets exactly one compatibility mode, that of the one
      library it links. */
  lemma OneCompatibilityMode(h: Host, c: Crt)
    requires NothingHandSet(c)
    ensures
      var r := CrtAfter(h, c);
      && (r.dosCompat <==> OnWindows(h)) && (r.glcCompat <==> OnUnix(h)) && (r.cygCompat <==> OnCygwin(h))
      && (r.kos <==> !r.dosCompat && !r.glcCompat && !r.cygCompat)
      && !(r.dosCompat && r.glcCompat) && !(r.dosCompat && r.cygCompat) && !(r.glcCompat && r.cygCompat)
      && (!r.kos ==> (r.dos.Some? <==> r.dosCompat) && (r.glc <==> r.glcCompat) && (r.cyg <==> r.cygCompat))
  {
  }

  predicate DosFsError(e: Error) {
    !e.NoTime64?
  }

  /** A user-space build without hand-set library macros runs into a directory-mode error exactly
      when it sets `_DOSFS_SOURCE` against what the library of a non-KOS platform offers; it never
      does when that macro is not set. */
  lemma DosFsErrorsExactly(h: Host, t: Table)
    requires !h.kernel && NothingHandSet(t.crt)
    ensures
      var n := Normalised(h, t);
      (exists e :: e in Errors(h, n.crt, n.sys) && DosFsError(e)) <==>
      !OnKos(h) && t.ext.dosFs.Some? && (t.ext.dosFs.value != 0) != OnWindows(h)
  {
    var n := Normalised(h, t);
    var errors := Errors(h, n.crt, n.sys);
    OneCompatibilityMode(h, t.crt);
    if !OnKos(h) && t.ext.dosFs.Some? && (t.ext.dosFs.value != 0) != OnWindows(h) {
      var e := if OnWindows(h) then DosFsRequired else DosFsUnsupported;
      assert e in errors && DosFsError(e);
    }
  }

  /** The time error, likewise: only a GLibc platform has it, when 64-bit time is asked for or
      comes with the DOS extensions. */
  lemma Time64ErrorExactly(h: Host, t: Table)
    requires !h.kernel && NothingHandSet(t.crt)
    ensures
      var n := Normalised(h, t);
      NoTime64 in Errors(h, n.crt, n.sys) <==>
      && OnUnix(h)
      && (|| t.ext.time64.Some?
          || AtLeast(t.ext.timeTBits, 64)
          || (!Nonzero(t.ext.timeTBits) && !t.ext.use32BitTimeT
              && if t.ext.dos.Some? then t.ext.dos.value != 0 else h.pe))
  {
    OneCompatibilityMode(h, t.crt);
  }
}
