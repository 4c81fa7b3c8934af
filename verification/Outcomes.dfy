/** How a program of the suite ends: with its result, or through `exit(1)` or a
    failing `return` for one of the causes below. */
module Outcomes {

  datatype Error =
    | ShortRead            // fread got fewer bytes than asked for
    | BadPhentsize         // e_phentsize == 0
    | NoPhdrs              // e_phnum == 0
    | NoLoadAlign          // no PT_LOAD segment with a non-zero p_align
    | EmptyPhdrFile        // the file of PT_LOAD headers is empty
    | RaggedPhdrFile       // its size is not a multiple of the header size
    | BadMapping           // start and stop address of a mapping do not fit
    | UnalignedRange       // a memory range is not word-aligned
    | NotMapped            // ptrace could not read or write the debuggee
    | NoKernelStack        // no initial mapping holds the stack pointer
    | SonameFailed         // elf_soname failed on a dump
    | ShortPermission      // fewer than three permission characters
    | DumpCountMismatch    // number of mappings and of dump files differ
    | NoEntrySegment       // no PT_LOAD segment covers the entry point
    | StarterTooBig        // the starter does not fit before the end of file
    | TooManyBreakpoints
    | NoSnapshot           // the debuggee ended, or never reached the breakpoint
    | MisalignedLoad       // load offset of the interpreter is not page-aligned
    | DivisionByZero       // killed by SIGFPE at a remainder by p_align == 0
    | NoFile               // a mapped file cannot be opened
    | NoRoom               // no mapped file has room for the starter

  datatype Outcome<+T> = Done(value: T) | Exit(error: Error)

  datatype Option<+T> = None | Some(value: T)
}
