/** Concrete file names and the verdict the validators give on them. */
module UploadExamples {
  import opened Uploads

  /** `resume.pdf` is accepted as a resume. */
  lemma ResumePdfAccepted()
    ensures AllowedResumeFile("resume.pdf")
  {
    assert "resume.pdf" == "resume" + "." + "pdf";
    LastSegmentDecides("resume", "pdf", RESUME_EXTENSIONS);
    LowerOf3("pdf", "pdf");
  }

  /** `resume.exe` is rejected as a resume. */
  lemma ResumeExeRejected()
    ensures !AllowedResumeFile("resume.exe")
  {
    assert "resume.exe" == "resume" + "." + "exe";
    LastSegmentDecides("resume", "exe", RESUME_EXTENSIONS);
    LowerOf3("exe", "exe");
    assert "exe"[0] !in {'p', 'd'};
  }

  /** Only the final segment counts: `a.exe.pdf` is accepted. */
  lemma PdfAfterExeAccepted()
    ensures AllowedResumeFile("a.exe.pdf")
  {
    assert "a.exe.pdf" == "a.exe" + "." + "pdf";
    LastSegmentDecides("a.exe", "pdf", RESUME_EXTENSIONS);
    LowerOf3("pdf", "pdf");
  }

  /** Only the final segment counts: `a.pdf.exe` is rejected. */
  lemma ExeAfterPdfRejected()
    ensures !AllowedResumeFile("a.pdf.exe")
  {
    assert "a.pdf.exe" == "a.pdf" + "." + "exe";
    LastSegmentDecides("a.pdf", "exe", RESUME_EXTENSIONS);
    LowerOf3("exe", "exe");
    assert "exe"[0] !in {'p', 'd'};
  }

  /** Upper case is accepted: `CV.PDF` as a resume. */
  lemma UpperCaseResumeAccepted()
    ensures AllowedResumeFile("CV.PDF")
  {
    assert "CV.PDF" == "CV" + "." + "PDF";
    LastSegmentDecides("CV", "PDF", RESUME_EXTENSIONS);
    LowerOf3("PDF", "pdf");
  }

  /** Upper case is accepted: `photo.PNG` as a screenshot. */
  lemma UpperCaseScreenshotAccepted()
    ensures AllowedScreenshotFile("photo.PNG")
  {
    assert "photo.PNG" == "photo" + "." + "PNG";
    LastSegmentDecides("photo", "PNG", SCREENSHOT_EXTENSIONS);
    LowerOf3("PNG", "png");
  }

  /** `noextension` is rejected. */
  lemma NoExtensionRejected()
    ensures !AllowedResumeFile("noextension")
  {
    assert '.' !in "noextension";
    NoDotRejected("noextension");
  }

  /** `cv.` is rejected. */
  lemma EmptyExtensionRejected()
    ensures !AllowedResumeFile("cv.")
  {
    assert "cv." == "cv" + ".";
    TrailingDotRejected("cv");
  }
}
