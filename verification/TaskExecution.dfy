/** The load loop and the stack page of `TaskExecutionService::execute` as code
    (kernel/src/task/aarch64/task_execution.rs). */
module TaskExecution {
  import opened Wrappers
  import opened PhysicalMemory
  import opened FileContents
  import opened Tmpfs
  import opened MemoryContext
  import opened Elf
  import opened Loader
  import opened Translation
  import opened LoadBudget

  /** One turn of the loop. */
  method LoadPage(context: MemoryContext, page: Chunk) returns (r: Result<()>)
    requires context.Valid() && context.allocator.NoOverflow() && OnePage(page)
    modifies context`pageAllocations, context.allocator`cursor, context.allocator.ram
    ensures context.Valid()
    ensures r.Ok? ==> context.allocator.NoOverflow()
    ensures context.State() == LoadChunk(context.allocator.layout, old(context.State()), context.tableL0, page).0
    ensures r == LoadChunk(context.allocator.layout, old(context.State()), context.tableL0, page).1
  {
    LoadChunkMeaning(context.allocator.layout, context.State(), context.tableL0, page, 0);
    var frame := context.AllocPage(page.address);
    if frame.Err? {
      return Err;
    }
    var copied := context.CopyToUser(page.bytes, page.address);
    if copied.Err? {
      return Err;
    }
    return Ok(());
  }

  /** `execute` up to the jump into the program: what it does to memory is `Load` of the chunks that
      the iterator has left. */
  method Execute(context: MemoryContext, pages: LoadablePages) returns (r: Result<()>)
    requires context.Valid() && context.allocator.NoOverflow() && pages.Valid()
    requires forall c | c in pages.Rest() :: OnePage(c)
    modifies context`pageAllocations, context.allocator`cursor, context.allocator.ram, pages, pages.reader.file
    ensures context.Valid()
    ensures context.State() == Load(context.allocator.layout, old(context.State()), context.tableL0, old(pages.Rest())).0
    ensures r == Load(context.allocator.layout, old(context.State()), context.tableL0, old(pages.Rest())).1
  {
    ghost var chunks := pages.Rest();
    ghost var start := context.State();
    LoadAllIsOverlay(context.allocator.layout, start, context.tableL0, chunks, 0);
    while true
      invariant context.Valid() && context.allocator.NoOverflow() && pages.Valid()
      invariant forall c | c in pages.Rest() :: OnePage(c)
      invariant LoadAll(context.allocator.layout, context.State(), context.tableL0, pages.Rest()) ==
                LoadAll(context.allocator.layout, start, context.tableL0, chunks)
      decreases |pages.Rest()|
    {
      ghost var rest := pages.Rest();
      var page := pages.Next();
      if page.None? {
        break;
      }
      assert rest[0] == page.value && rest[1..] == pages.Rest();
      r := LoadPage(context, page.value);
      if r.Err? {
        return;
      }
    }
    var stack := context.AllocPage(STACK_INIT - PAGE_SIZE);
    if stack.Err? {
      return Err;
    }
    return Ok(());
  }

  /** The program headers that an ELF file holds. */
  ghost predicate IsProgram(content: Bytes, headers: seq<ProgramHeader>)
  {
    && |content| >= HEADER_SIZE
    && var h := ParseHeader(content);
       && IsValid(h)
       && h.programHeaderCount == |headers|
       && HeadersAt(content, h.programHeaderOffset, headers)
  }

  lemma HeadersAreUnique(content: Bytes, offset: nat, a: seq<ProgramHeader>, b: seq<ProgramHeader>)
    requires HeadersAt(content, offset, a) && HeadersAt(content, offset, b) && |a| == |b|
    ensures a == b
  {
  }

  /** `execute` of an open file, for a valid ELF file with disjoint segments that fit in it: with 48-bit RAM it
      succeeds exactly when the program is affordable; success means that the task's address space is as the file
      says; the result is the entry point. */
  method ExecuteFile(context: MemoryContext, file: File, ghost headers: seq<ProgramHeader>) returns (r: Result<nat>)
    requires context.Valid() && context.allocator.NoOverflow()
    requires file.node.id in file.fs.files && file.position == 0
    requires IsProgram(Content(file), headers) && Disjoint(headers) && InFile(Content(file), headers)
    modifies context`pageAllocations, context.allocator`cursor, context.allocator.ram, file
    ensures context.Valid()
    ensures Content(file) == old(Content(file))
    ensures r.Ok? ==> Runs(old(context.State()), context.State(), context.tableL0, Content(file), headers)
    ensures r.Ok? ==> r.value == ParseHeader(Content(file)).entryPoint
    ensures AllReadable(Content(file), headers) && forall c | c in Remaining(Content(file), headers, 0, 0) :: OnePage(c)
    ensures var chunks := Remaining(Content(file), headers, 0, 0);
            r.Err? <==> Load(context.allocator.layout, old(context.State()), context.tableL0, chunks).1.Err?
    ensures context.allocator.layout.capacity <= VA_LIMIT ==>
              (r.Ok? <==> Affordable(context.allocator.layout, old(context.State()), context.tableL0, headers))
  {
    ghost var content := Content(file);
    assert content[0..] == content;
    LoadRuns(context.allocator.layout, context.State(), context.tableL0, content, headers);
    if context.allocator.layout.capacity <= VA_LIMIT {
      ProgramLoadsExactly(context.allocator.layout, context.State(), context.tableL0, content, headers);
    }
    var reader := NewReader(file);
    if reader.Err? {
      return Err;
    }
    HeadersAreUnique(content, reader.value.header.programHeaderOffset, reader.value.programHeaders, headers);
    var pages := new LoadablePages(reader.value);
    var loaded := Execute(context, pages);
    if loaded.Err? {
      return Err;
    }
    return Ok(reader.value.header.entryPoint);
  }
}
